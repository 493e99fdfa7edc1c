/** What the cycle wrap does to in-range delivery, exactly. */
module Wrap {
  import opened Constants
  import opened SlidingWindow
  import opened Position
  import opened Burst
  import opened Duplicates
  import opened Coverage

  // ----- one datagram

  /** Everything behind the position is processed, and from there to `newest` a flag is up exactly if
      its frame is processed. */
  ghost predicate Truthful(w: Window, newest: int, s: State) {
    && (forall j: nat :: j < s.pos ==> Taken(s, j))
    && (forall j: nat :: s.pos <= j <= newest ==> (Taken(s, j) <==> Ring(w, j) in s.flags))
  }

  /** A datagram within MaxBuffered of the position but not near it carries a frame whose flag is that
      of an earlier frame, not carried, from the position on. */
  lemma WindowAlias(w: Window, pos: nat, n: nat) returns (x: nat)
    requires pos <= n < pos + MaxBuffered(w) && !Near(w, pos, n)
    ensures pos <= x && x + w <= n
    ensures x + SafeSpan(w) <= n < x + SafeSpan(w) + w && Ring(w, x) == Ring(w, x + SafeSpan(w))
  {
    var q := SpanRemains(w);
    WindowIsDistinct(w);
    SpanIs(w);
    AlignedIff(w);
    var wrap := NextWrap(w, pos, n);
    x := if n - SafeSpan(w) < wrap then n - SafeSpan(w) else wrap - 1;
    AliasAt(w, wrap, x);
  }

  /** A synchronised receiver: exactly the frames behind the position are processed. */
  ghost predicate Synchronised(s: State) {
    s.flags == {} && NoRepeats(s.log) && forall j: nat :: Taken(s, j) <==> j < s.pos
  }

  lemma NearIsTruthful(w: Window, s: State, n: nat)
    requires Synchronised(s) && Accepts(s, n) && Near(w, s.pos, n)
    ensures Truthful(w, n, Accept(w, s, n))
  {
    ClearIff(w, s.pos, n + 1);
    forall e | e in s.log ensures e.frame < s.pos { assert Taken(s, e.frame); }
    GoodAccept(w, n, s, n);
  }

  /** The flag raised for the later of the two frames outlives the passing of earlier ones. */
  lemma AliasStaysUp(w: Window, s: State, n: nat, x: nat)
    requires s.pos <= x && x + w <= n < s.pos + MaxBuffered(w)
    requires x + SafeSpan(w) <= n < x + SafeSpan(w) + w && Ring(w, x) == Ring(w, x + SafeSpan(w))
    ensures Accept(w, s, n).pos <= x ==> Ring(w, x) in Accept(w, s, n).flags
  {
    var q := SpanRemains(w);
    var y := x + SafeSpan(w);
    SinkRaises(w, s, n, w, y);
    AdvanceClears(w, Sunk(w, s, n), Ring(w, x));
    forall p: nat | s.pos <= p < x ensures Ring(w, p) != Ring(w, x) { NoTriple(w, p, x, y); }
  }

  lemma FarIsUntruthful(w: Window, s: State, n: nat)
    requires Synchronised(s) && Accepts(s, n) && n < s.pos + MaxBuffered(w) && !Near(w, s.pos, n)
    ensures !Truthful(w, n, Accept(w, s, n))
  {
    var x := WindowAlias(w, s.pos, n);
    AliasStaysUp(w, s, n, x);
    AcceptAdds(w, s, n);
    var r := Accept(w, s, n);
    assert !Taken(s, x);
    assert !Taken(r, x);
  }

  /** From a synchronised receiver, flags and position tell the truth after a datagram within
      MaxBuffered if and only if the datagram is near. */
  lemma TruthfulIff(w: Window, s: State, n: nat)
    requires Synchronised(s) && Accepts(s, n) && n < s.pos + MaxBuffered(w)
    ensures Truthful(w, n, Step(w, s, n)) <==> Near(w, s.pos, n)
  {
    if Near(w, s.pos, n) { NearIsTruthful(w, s, n); } else { FarIsUntruthful(w, s, n); }
  }

  // ----- whole runs

  /** Everything behind the position was processed, and nothing twice. */
  ghost predicate Faithful(s: State) {
    && (forall j: nat :: j < s.pos ==> Taken(s, j))
    && (forall j: nat :: Times(s.log, j) <= 1)
  }

  /** Every arrival is less than MaxBuffered ahead of the position it meets, and not so far ahead
      that it is dropped. */
  ghost predicate WithinBuffer(w: Window, arrivals: seq<nat>) {
    forall i :: 0 <= i < |arrivals| ==>
      var p := Run(w, START, arrivals[..i]).pos;
      arrivals[i] < p + MaxBuffered(w) && arrivals[i] <= p + MAX_AHEAD
  }

  /** A window wider than the range of acceptance is faithful across every wrap. */
  lemma {:induction false} WideWindowIsFaithful(w: Window, arrivals: seq<nat>, j: nat)
    requires MAX_AHEAD < w
    ensures var r := Run(w, START, arrivals);
            r.flags == {} && Times(r.log, j) == if j < r.pos then 1 else 0
  {
    if |arrivals| > 0 {
      var before := arrivals[..|arrivals| - 1];
      var n := arrivals[|arrivals| - 1];
      WideWindowIsFaithful(w, before, j);
      var s := Run(w, START, before);
      if Accepts(s, n) {
        BurstStep(w, s, n);
        TimesConcat(s.log, Down(n, s.pos, n + 1 - s.pos), j);
        DownOnce(n, s.pos, n + 1 - s.pos, j);
      }
    }
  }

  /** From a synchronised receiver SafeSpan before an unaligned wrap, the first datagram of the next
      lap raises the flag of the frame the receiver is waiting for, and that frame is passed without
      ever being processed. */
  lemma WrapSkips(w: Window, s: State, wrap: nat)
    requires !Aligned(w) && wrap % MaxCycle(w) == 0 && s.pos + SafeSpan(w) == wrap
    requires Accepts(s, wrap) && !Taken(s, s.pos)
    ensures wrap < s.pos + MaxBuffered(w)
    ensures s.pos < Step(w, s, wrap).pos && !Taken(Step(w, s, wrap), s.pos)
  {
    var q := SpanRemains(w);
    WindowIsDistinct(w);
    AliasAt(w, wrap, s.pos);
    SinkRaises(w, s, wrap, w, wrap);
    AdvanceMoves(w, Bump(w, Sunk(w, s, wrap)));
    AcceptAdds(w, s, wrap);
  }

  /** The run that meets it: perfect up to SafeSpan before the wrap, then the next lap's first. */
  lemma UnalignedWrapIsUnfaithful(w: Window, top: nat) returns (arrivals: seq<nat>)
    requires !Aligned(w) && w <= MAX_AHEAD && MaxCycle(w) < top
    ensures Last(arrivals) < top && WithinBuffer(w, arrivals) && !Faithful(Run(w, START, arrivals))
  {
    var q := SpanRemains(w);
    SpanIs(w);
    AlignedIff(w);
    var m := MaxCycle(w);
    var p := m - SafeSpan(w);
    PerfectRun(w, p);
    var s := Run(w, START, UpTo(p));
    TimesIfPresent(s.log, p);
    ModIs(m, m, 1, 0);
    WrapSkips(w, s, m);
    arrivals := UpTo(p) + [m];
    assert arrivals[..p] == UpTo(p);
    UpToLast(p);
    PerfectThenAhead(w, p, m);
  }

  lemma PerfectThenAhead(w: Window, p: nat, n: nat)
    requires p <= n < p + MaxBuffered(w) && n <= p + MAX_AHEAD
    ensures WithinBuffer(w, UpTo(p) + [n])
  {
    var arrivals := UpTo(p) + [n];
    forall i | 0 <= i < |arrivals|
      ensures arrivals[i] < Run(w, START, arrivals[..i]).pos + MaxBuffered(w)
      ensures arrivals[i] <= Run(w, START, arrivals[..i]).pos + MAX_AHEAD
    {
      assert arrivals[..i] == UpTo(i);
      PerfectRun(w, i);
    }
  }

  /** On aligned rings, or within the first lap, every arrival within the buffer is near. */
  lemma WithinIsNear(w: Window, top: nat, arrivals: seq<nat>)
    requires Aligned(w) || top <= MaxCycle(w)
    requires Last(arrivals) < top && WithinBuffer(w, arrivals)
    ensures InRange(w, arrivals)
  {
    var q := SpanRemains(w);
    forall i | 0 <= i < |arrivals| && Run(w, START, arrivals[..i]).pos <= arrivals[i]
      ensures Near(w, Run(w, START, arrivals[..i]).pos, arrivals[i])
    {
      var p := Run(w, START, arrivals[..i]).pos;
      if !Aligned(w) {
        LastIsNewest(arrivals, i);
        ModIs(p, MaxCycle(w), 0, p);
        ModIs(arrivals[i], MaxCycle(w), 0, arrivals[i]);
      }
    }
  }

  /** Delivery within the buffer of frames below `top` is faithful, for every order and every
      duplication, if and only if no unaligned wrap is met or the window is wider than the range of
      acceptance. */
  lemma FaithfulIff(w: Window, top: nat)
    ensures (forall arrivals :: Last(arrivals) < top && WithinBuffer(w, arrivals) ==>
               Faithful(Run(w, START, arrivals)))
            <==> Aligned(w) || top <= MaxCycle(w) || MAX_AHEAD < w
  {
    if Aligned(w) || top <= MaxCycle(w) || MAX_AHEAD < w {
      forall arrivals | Last(arrivals) < top && WithinBuffer(w, arrivals)
        ensures Faithful(Run(w, START, arrivals))
      {
        var r := Run(w, START, arrivals);
        if w <= MAX_AHEAD {
          WithinIsNear(w, top, arrivals);
          RunIsCoverage(w, arrivals);
        }
        forall j: nat ensures Times(r.log, j) <= 1 && (j < r.pos ==> Taken(r, j)) {
          TimesIfPresent(r.log, j);
          if MAX_AHEAD < w { WideWindowIsFaithful(w, arrivals, j); }
        }
      }
    } else {
      var arrivals := UnalignedWrapIsUnfaithful(w, top);
    }
  }
}
