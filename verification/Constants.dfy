/** Protocol constants (crates/longboy/src/proto/constants.rs) and the arithmetic of the
    two rings they define: cycles modulo MaxCycle, flags modulo MaxBuffered. */
module Constants {

  /** WINDOW_SIZE.  With SIZE >= 1 the compile-time bound on the datagram forces it below 416. */
  type Window = w: nat | 1 <= w <= 415 witness 1

  const HEADER_SIZE := 4

  ghost predicate ValidSize(size: nat, w: Window) {
    1 <= size && HEADER_SIZE + size * w < 420
  }

  function DatagramSize(size: nat, w: Window): nat {
    HEADER_SIZE + size * w
  }

  function MaxCycle(w: Window): (c: nat)
    ensures 65535 - w < c <= 65535
  {
    (65535 / w) * w
  }

  function MaxBuffered(w: Window): nat {
    if w < 4 then 8 else 2 * w
  }

  /** The cycle of absolute frame `j`, and the flag index that cycle uses. */
  function CycleOf(w: Window, j: int): nat {
    j % MaxCycle(w)
  }

  function Ring(w: Window, j: int): nat {
    CycleOf(w, j) % MaxBuffered(w)
  }

  // ----- modular arithmetic

  /** The only multiple of `m` strictly between -m and m is zero. */
  lemma SmallMultiple(q: int, m: int)
    requires -m < q * m < m
    ensures q == 0
  {
  }

  /** Quotient and remainder are unique. */
  lemma ModIs(a: int, m: nat, q: int, r: nat)
    requires 0 < m && r < m && a == q * m + r
    ensures a / m == q && a % m == r
  {
    assert (q - a / m) * m == a % m - r;
    SmallMultiple(q - a / m, m);
  }

  /** Shifting by a whole number of moduli changes nothing. */
  lemma ModShift(a: int, m: nat, k: int)
    requires 0 < m
    ensures (a + k * m) % m == a % m
  {
    ModIs(a + k * m, m, a / m + k, a % m);
  }

  /** Two numbers less than one modulus apart have the same residue only if they are equal. */
  lemma ModNear(a: int, b: int, m: nat)
    requires 0 < m && a < b <= a + m
    ensures a % m == b % m <==> b == a + m
  {
    if b == a + m {
      ModShift(a, m, 1);
    } else if a % m == b % m {
      assert (b / m - a / m) * m == b - a;
      SmallMultiple(b / m - a / m, m);
    }
  }

  /** Reducing modulo a multiple first does not change the residue. */
  lemma ModOfMultiple(a: int, m: nat, k: nat)
    requires 0 < m && 0 < k
    ensures (a % (k * m)) % m == a % m
  {
    var q := a / (k * m);
    assert 0 < k * m;
    assert a == q * (k * m) + a % (k * m);
    assert q * (k * m) == (q * k) * m;
    ModShift(a % (k * m), m, q * k);
  }

  // ----- the cycle ring

  /** MaxCycle is the largest multiple of the window that fits in a u16. */
  lemma MaxCycleIsMultiple(w: Window)
    ensures MaxCycle(w) % w == 0 && MaxCycle(w) <= 65535 < MaxCycle(w) + w
  {
    ModIs(MaxCycle(w), w, 65535 / w, 0);
  }

  /** Equal residues stay equal when both numbers move by the same amount. */
  lemma ModCongruent(a: int, b: int, m: nat, d: int)
    requires 0 < m && a % m == b % m
    ensures (a + d) % m == (b + d) % m
  {
    var k := a / m - b / m;
    assert a + d == b + d + k * m;
    ModShift(b + d, m, k);
  }

  /** Slot rotation is continuous at the wrap: a cycle and its absolute frame share a slot. */
  lemma SlotOfCycle(w: Window, j: int)
    ensures CycleOf(w, j) % w == j % w
  {
    ModOfMultiple(j, w, 65535 / w);
  }

  /** Advancing the stored cycle advances the absolute position. */
  lemma CycleStep(w: Window, pos: int)
    ensures (CycleOf(w, pos) + 1) % MaxCycle(w) == CycleOf(w, pos + 1)
  {
    var m := MaxCycle(w);
    ModIs(CycleOf(w, pos), m, 0, CycleOf(w, pos));
    ModCongruent(CycleOf(w, pos), pos, m, 1);
  }

  /** Going back `i` from a header cycle reaches the cycle of frame n - i. */
  lemma CycleBack(w: Window, c: int, n: int, i: int)
    requires c % MaxCycle(w) == CycleOf(w, n)
    ensures (c + MaxCycle(w) - i) % MaxCycle(w) == CycleOf(w, n - i)
  {
    var m := MaxCycle(w);
    ModCongruent(c, n, m, m - i);
    ModShift(n - i, m, 1);
  }

  /** The wrapped distance between two cycles is the distance of their frames modulo one lap. */
  lemma CycleDistance(w: Window, c: int, n: int, pos: int)
    requires c % MaxCycle(w) == CycleOf(w, n)
    ensures (c + MaxCycle(w) - CycleOf(w, pos)) % MaxCycle(w) == (n - pos) % MaxCycle(w)
  {
    var m := MaxCycle(w);
    CycleBack(w, c, n, CycleOf(w, pos));
    ModIs(pos, m, pos / m, pos % m);
    assert n - CycleOf(w, pos) == n - pos + (pos / m) * m;
    ModShift(n - pos, m, pos / m);
  }

  /** Within one lap either way the residue of a distance identifies the distance. */
  lemma DistanceWithinLap(w: Window, d: int)
    requires 0 <= d + MaxCycle(w) && d < MaxCycle(w)
    ensures d % MaxCycle(w) == if 0 <= d then d else d + MaxCycle(w)
  {
    ModIs(d, MaxCycle(w), if 0 <= d then 0 else -1, if 0 <= d then d else d + MaxCycle(w));
  }

  // ----- the flag ring

  /** Every run of `k` consecutive frames uses `k` different flags. */
  ghost predicate DistinctFlags(w: Window, k: nat) {
    forall a: nat, b: nat :: a < b < a + k ==> Ring(w, a) != Ring(w, b)
  }

  /** The number of consecutive frames that never share a flag, even across the cycle wrap. */
  function SafeSpan(w: Window): nat {
    if MaxCycle(w) % MaxBuffered(w) == 0 then MaxBuffered(w) else MaxCycle(w) % MaxBuffered(w)
  }

  /** The lap of frame `j`: how often the cycle has wrapped before it. */
  function Lap(w: Window, j: int): int {
    j / MaxCycle(w)
  }

  /** MaxBuffered divides MaxCycle. */
  predicate Aligned(w: Window) {
    MaxCycle(w) % MaxBuffered(w) == 0
  }

  /** The frames lo .. hi-1 use different flags. */
  ghost predicate Clear(w: Window, lo: int, hi: int) {
    forall a: int, b: int :: lo <= a < b < hi ==> Ring(w, a) != Ring(w, b)
  }

  /** Among the frames lo .. hi-1, two up to MaxBuffered apart share a flag exactly when they are
      MaxBuffered apart. */
  ghost predicate Flat(w: Window, lo: int, hi: int) {
    forall a: int, b: int :: lo <= a < b < hi && b - a <= MaxBuffered(w) ==>
      (Ring(w, a) == Ring(w, b) <==> b - a == MaxBuffered(w))
  }

  /** Two frames of one lap behave as if cycles never wrapped. */
  lemma SameLap(w: Window, a: int, b: int)
    requires a < b && b - a <= MaxBuffered(w) && Lap(w, a) == Lap(w, b)
    ensures Ring(w, a) == Ring(w, b) <==> b - a == MaxBuffered(w)
  {
    assert CycleOf(w, b) - CycleOf(w, a) == b - a;
    ModNear(CycleOf(w, a), CycleOf(w, b), MaxBuffered(w));
  }

  /** Frames of different laps have a wrap between them. */
  lemma NextWrap(w: Window, lo: int, b: int) returns (wrap: int)
    requires lo <= b && Lap(w, lo) != Lap(w, b)
    ensures lo < wrap <= b && wrap % MaxCycle(w) == 0
  {
    var m, p := MaxCycle(w), Lap(w, lo);
    wrap := lo - lo % m + m;
    assert wrap == (p + 1) * m;
    ModIs(wrap, m, p + 1, 0);
    if b < wrap { ModIs(b, m, p, b - p * m); }
  }

  /** Cycles and laps within one lap of a wrap. */
  lemma AroundWrap(w: Window, wrap: int, x: int)
    requires wrap % MaxCycle(w) == 0 && wrap <= x + MaxCycle(w) && x < wrap + MaxCycle(w)
    ensures CycleOf(w, x) == if wrap <= x then x - wrap else MaxCycle(w) - (wrap - x)
    ensures Lap(w, x) == if wrap <= x then Lap(w, wrap) else Lap(w, wrap) - 1
  {
    var m, k := MaxCycle(w), Lap(w, wrap);
    if wrap <= x {
      ModIs(x, m, k, x - wrap);
    } else {
      assert (k - 1) * m == wrap - m;
      ModIs(x, m, k - 1, m - (wrap - x));
    }
  }

  /** Frames on the two sides of one wrap: `before` cycles to go, `after` cycles gone. */
  lemma AcrossWrap(w: Window, a: int, b: int) returns (before: nat, after: nat)
    requires a < b && b - a <= MaxBuffered(w) && Lap(w, a) != Lap(w, b)
    ensures 0 < before && before + after == b - a && Lap(w, b) == Lap(w, a) + 1
    ensures CycleOf(w, a) == MaxCycle(w) - before && CycleOf(w, b) == after
  {
    var wrap := NextWrap(w, a, b);
    before, after := wrap - a, b - wrap;
    AroundWrap(w, wrap, a);
    AroundWrap(w, wrap, b);
  }

  /** MaxCycle in terms of the flag ring: whole turns and a last, possibly partial, SafeSpan. */
  lemma SpanRemains(w: Window) returns (q: nat)
    ensures MaxCycle(w) == q * MaxBuffered(w) + SafeSpan(w)
    ensures 0 < SafeSpan(w) <= MaxBuffered(w) && SafeSpan(w) < MaxCycle(w)
    ensures Aligned(w) <==> SafeSpan(w) == MaxBuffered(w)
  {
    var m, mb := MaxCycle(w), MaxBuffered(w);
    ModIs(m, mb, m / mb, m % mb);
    q := if m % mb == 0 then m / mb - 1 else m / mb;
    assert (m / mb - 1) * mb == (m / mb) * mb - mb;
  }

  /** Across the wrap, up to SafeSpan apart, flags collide exactly at distance SafeSpan. */
  lemma AcrossWrapFlags(w: Window, a: int, b: int)
    requires a < b <= a + SafeSpan(w) && Lap(w, a) != Lap(w, b)
    ensures Ring(w, a) == Ring(w, b) <==> b - a == SafeSpan(w)
  {
    var q := SpanRemains(w);
    var before, after := AcrossWrap(w, a, b);
    var mb, r := MaxBuffered(w), SafeSpan(w);
    ModIs(MaxCycle(w) - before, mb, q, r - before);
    if after < mb { ModIs(after, mb, 0, after); }
  }

  /** Less than SafeSpan apart, frames never share a flag, whatever the lap. */
  lemma SafePair(w: Window, a: int, b: int)
    requires a < b < a + SafeSpan(w)
    ensures Ring(w, a) != Ring(w, b)
  {
    var q := SpanRemains(w);
    if Lap(w, a) == Lap(w, b) { SameLap(w, a, b); } else { AcrossWrapFlags(w, a, b); }
  }

  /** On aligned rings flags follow frame numbers on every lap. */
  lemma AlignedPair(w: Window, a: int, b: int)
    requires Aligned(w) && a < b && b - a <= MaxBuffered(w)
    ensures Ring(w, a) == Ring(w, b) <==> b - a == MaxBuffered(w)
  {
    var q := SpanRemains(w);
    if Lap(w, a) == Lap(w, b) { SameLap(w, a, b); } else { AcrossWrapFlags(w, a, b); }
  }

  /** No three frames within MaxBuffered share one flag: that would take two wraps. */
  lemma NoTriple(w: Window, p: int, q: int, j: int)
    requires p < q < j <= p + MaxBuffered(w)
    ensures !(Ring(w, p) == Ring(w, q) == Ring(w, j))
  {
    if Ring(w, p) == Ring(w, q) == Ring(w, j) {
      if Lap(w, p) == Lap(w, q) { SameLap(w, p, q); }
      if Lap(w, q) == Lap(w, j) { SameLap(w, q, j); }
      var before, after := AcrossWrap(w, p, q);
      var before', after' := AcrossWrap(w, q, j);
    }
  }

  /** Exactly how many consecutive frames are free of flag aliasing on every lap. */
  lemma DistinctFlagsIff(w: Window, k: nat)
    ensures DistinctFlags(w, k) <==> k <= SafeSpan(w)
  {
    var q := SpanRemains(w);
    if k <= SafeSpan(w) {
      forall a: nat, b: nat | a < b < a + k ensures Ring(w, a) != Ring(w, b) { SafePair(w, a, b); }
    } else {
      var x := MaxCycle(w) - SafeSpan(w);
      ModIs(x, MaxCycle(w), 0, x);
      ModIs(MaxCycle(w), MaxCycle(w), 1, 0);
      AcrossWrapFlags(w, x, MaxCycle(w));
      assert x < MaxCycle(w) < x + k;
    }
  }

  /** Any window's worth of consecutive frames is free of aliasing, for every window size. */
  lemma WindowIsDistinct(w: Window)
    ensures w <= SafeSpan(w) <= MaxBuffered(w) && 2 * w <= MaxBuffered(w)
    ensures DistinctFlags(w, w)
  {
    SpanIs(w);
    DistinctFlagsIff(w, w);
  }

  /** SafeSpan in numbers: all of MaxBuffered on aligned rings, else the window, or 6 or 7. */
  lemma SpanIs(w: Window)
    ensures 4 <= w ==> SafeSpan(w) == if (65535 / w) % 2 == 0 then 2 * w else w
    ensures w < 4 ==> SafeSpan(w) == if w == 2 then 6 else 7
  {
    if 4 <= w {
      var q := 65535 / w;
      assert q * w == (q / 2) * (2 * w) + (q % 2) * w;
      ModIs(MaxCycle(w), 2 * w, q / 2, (q % 2) * w);
    }
  }

  /** The flag ring divides the cycle ring exactly for windows of at least four that fit a u16 an
      even number of times. */
  lemma AlignedIff(w: Window)
    ensures Aligned(w) <==> 4 <= w && (65535 / w) % 2 == 0
  {
    var q := SpanRemains(w);
    SpanIs(w);
  }

  // ----- exactly where flags follow frame numbers

  /** The last SafeSpan frames of a lap share their flags with the frames SafeSpan later. */
  lemma AliasAt(w: Window, wrap: int, x: int)
    requires wrap % MaxCycle(w) == 0 && wrap - SafeSpan(w) <= x < wrap
    ensures Ring(w, x) == Ring(w, x + SafeSpan(w))
  {
    var q := SpanRemains(w);
    AroundWrap(w, wrap, x);
    AroundWrap(w, wrap, x + SafeSpan(w));
    AcrossWrapFlags(w, x, x + SafeSpan(w));
  }

  /** A wrap inside a stretch longer than SafeSpan leaves two of its frames, SafeSpan apart, with
      one flag. */
  lemma WrapAlias(w: Window, lo: int, hi: int) returns (x: int)
    requires lo + SafeSpan(w) < hi && Lap(w, lo) != Lap(w, hi - 1)
    ensures lo <= x && x + SafeSpan(w) < hi && Ring(w, x) == Ring(w, x + SafeSpan(w))
  {
    var wrap := NextWrap(w, lo, hi - 1);
    x := if lo <= wrap - SafeSpan(w) then wrap - SafeSpan(w) else lo;
    AliasAt(w, wrap, x);
  }

  /** Frame `n` is less than SafeSpan ahead of `pos`, or less than MaxBuffered ahead in its lap. */
  predicate Near(w: Window, pos: int, n: int) {
    n < pos + SafeSpan(w) || (n < pos + MaxBuffered(w) && Lap(w, pos) == Lap(w, n))
  }

  /** A stretch of frames is free of aliasing if and only if its last frame is near its first. */
  lemma ClearIff(w: Window, lo: int, hi: int)
    requires lo < hi
    ensures Clear(w, lo, hi) <==> Near(w, lo, hi - 1)
  {
    var q := SpanRemains(w);
    if hi - lo <= SafeSpan(w) {
      forall a: int, b: int | lo <= a < b < hi ensures Ring(w, a) != Ring(w, b) { SafePair(w, a, b); }
    } else if hi - lo <= MaxBuffered(w) && Lap(w, lo) == Lap(w, hi - 1) {
      forall a: int, b: int | lo <= a < b < hi ensures Ring(w, a) != Ring(w, b) {
        LapBetween(w, lo, a, hi - 1);
        LapBetween(w, lo, b, hi - 1);
        SameLap(w, a, b);
      }
    } else {
      var top := if hi - lo <= MaxBuffered(w) then hi else lo + MaxBuffered(w) + 1;
      if Lap(w, lo) == Lap(w, top - 1) {
        SameLap(w, lo, top - 1);
      } else {
        var x := WrapAlias(w, lo, top);
      }
    }
  }

  /** Laps do not go back. */
  lemma LapBetween(w: Window, lo: int, a: int, hi: int)
    requires lo <= a <= hi && Lap(w, lo) == Lap(w, hi)
    ensures Lap(w, a) == Lap(w, lo)
  {
    var m, q := MaxCycle(w), Lap(w, lo);
    ModIs(a, m, q, a - q * m);
  }

  /** Flags follow frame numbers over a stretch if and only if the rings are aligned, or the stretch
      stays within one lap or within SafeSpan. */
  lemma FlatIff(w: Window, lo: int, hi: int)
    requires lo < hi
    ensures Flat(w, lo, hi) <==> Aligned(w) || Lap(w, lo) == Lap(w, hi - 1) || hi - lo <= SafeSpan(w)
  {
    var q := SpanRemains(w);
    if Aligned(w) || Lap(w, lo) == Lap(w, hi - 1) || hi - lo <= SafeSpan(w) {
      forall a: int, b: int | lo <= a < b < hi && b - a <= MaxBuffered(w)
        ensures Ring(w, a) == Ring(w, b) <==> b - a == MaxBuffered(w)
      {
        FlatPair(w, lo, hi, a, b);
      }
    } else {
      var x := WrapAlias(w, lo, hi);
    }
  }

  lemma FlatPair(w: Window, lo: int, hi: int, a: int, b: int)
    requires lo <= a < b < hi && b - a <= MaxBuffered(w)
    requires Aligned(w) || Lap(w, lo) == Lap(w, hi - 1) || hi - lo <= SafeSpan(w)
    ensures Ring(w, a) == Ring(w, b) <==> b - a == MaxBuffered(w)
  {
    var q := SpanRemains(w);
    if Aligned(w) {
      AlignedPair(w, a, b);
    } else if Lap(w, lo) == Lap(w, hi - 1) {
      LapBetween(w, lo, a, hi - 1);
      LapBetween(w, lo, b, hi - 1);
      SameLap(w, a, b);
    } else {
      SafePair(w, a, b);
    }
  }

  /** From cycle `c`, a whole ring of cycles is free of aliasing exactly when the rings are aligned
      or the wrap is not reached. */
  lemma FullRingIff(w: Window, c: nat)
    requires c < MaxCycle(w)
    ensures Clear(w, c, c + MaxBuffered(w)) <==> Aligned(w) || c + MaxBuffered(w) <= MaxCycle(w)
  {
    var m, top := MaxCycle(w), c + MaxBuffered(w) - 1;
    var q := SpanRemains(w);
    ClearIff(w, c, top + 1);
    ModIs(c, m, 0, c);
    if top < m { ModIs(top, m, 0, top); } else { ModIs(top, m, 1, top - m); }
  }
}
