/** How often a frame can reach the sink, under any loss, duplication and reordering, for every
    window size and any number of wraps. */
module AtMostTwice {
  import opened Constants
  import opened SlidingWindow

  /** Processed while the flag it used was also that of an earlier frame still to be passed. */
  ghost predicate Loose(w: Window, e: Take) {
    exists p: nat :: e.base <= p < e.frame && Ring(w, p) == Ring(w, e.frame)
  }

  /** That earlier frame has been passed since, and the flag was cleared with it. */
  ghost predicate Undone(w: Window, s: State, e: Take) {
    exists p: nat :: e.base <= p < s.pos && p < e.frame && Ring(w, p) == Ring(w, e.frame)
  }

  /** A processed frame is behind, or flagged, or its flag was undone. */
  ghost predicate GoodEntry(w: Window, s: State, e: Take) {
    && e.base <= s.pos && e.base <= e.frame <= e.base + MaxBuffered(w)
    && (e.frame < s.pos || Ring(w, e.frame) in s.flags || Undone(w, s, e))
  }

  /** Two log entries for one frame: the first was loose and the second was not. */
  ghost predicate LooseThenFirm(w: Window, log: seq<Take>) {
    forall a, b :: 0 <= a < b < |log| && log[a].frame == log[b].frame ==>
      Loose(w, log[a]) && !Loose(w, log[b])
  }

  ghost predicate Sound(w: Window, s: State) {
    (forall e :: e in s.log ==> GoodEntry(w, s, e)) && LooseThenFirm(w, s.log)
  }

  lemma SoundBump(w: Window, s: State)
    requires Sound(w, s)
    ensures Sound(w, Bump(w, s))
  {
    var t := Bump(w, s);
    forall e | e in t.log ensures GoodEntry(w, t, e) {
      if s.pos < e.frame && Ring(w, e.frame) == Ring(w, s.pos) {
        assert Undone(w, t, e);
      } else if e.frame > s.pos && Ring(w, e.frame) !in s.flags {
        var p: nat :| e.base <= p < s.pos && p < e.frame && Ring(w, p) == Ring(w, e.frame);
        assert Undone(w, t, e);
      }
    }
  }

  lemma SoundMark(w: Window, s: State, n: nat, j: nat)
    requires Sound(w, s) && MayMark(w, s, n, j)
    ensures Sound(w, Mark(w, s, j))
  {
    var e, t := Take(j, s.pos), Mark(w, s, j);
    forall x | x in t.log ensures GoodEntry(w, t, x) {
      if x != e && Undone(w, s, x) { assert Undone(w, t, x); }
    }
    forall a | 0 <= a < |s.log| && s.log[a].frame == j ensures Loose(w, s.log[a]) && !Loose(w, e) {
      assert GoodEntry(w, s, s.log[a]);
      SecondIsFirm(w, s, s.log[a], j);
    }
  }

  /** A frame processed again had its flag undone; within MaxBuffered there is no third frame with
      that flag, so the second time is not loose. */
  lemma SecondIsFirm(w: Window, s: State, e: Take, j: nat)
    requires Undone(w, s, e) && e.frame == j && s.pos <= j <= e.base + MaxBuffered(w)
    ensures Loose(w, e) && !Loose(w, Take(j, s.pos))
  {
    var p: nat :| e.base <= p < s.pos && p < e.frame && Ring(w, p) == Ring(w, e.frame);
    forall q: nat | s.pos <= q < j ensures Ring(w, q) != Ring(w, j) { NoTriple(w, p, q, j); }
  }

  /** Over every run: everything processed is accounted for. */
  lemma {:induction false} RunSound(w: Window, arrivals: seq<nat>)
    ensures Sound(w, Run(w, START, arrivals))
  {
    if |arrivals| > 0 {
      var before := arrivals[..|arrivals| - 1];
      var n := arrivals[|arrivals| - 1];
      RunSound(w, before);
      var P := (t: State) => Sound(w, t);
      forall t | P(t) && MayBump(w, t, n) ensures P(Bump(w, t)) { SoundBump(w, t); }
      forall t, j: nat | P(t) && MayMark(w, t, n, j) ensures P(Mark(w, t, j)) { SoundMark(w, t, n, j); }
      AcceptKeeps(w, Run(w, START, before), n, P);
    }
  }

  lemma {:induction false} TimesBound(w: Window, log: seq<Take>, j: nat)
    requires LooseThenFirm(w, log)
    ensures Times(log, j) <= 2
    ensures (forall e :: e in log && e.frame == j ==> Loose(w, e)) ==> Times(log, j) <= 1
    ensures (forall e :: e in log && e.frame == j ==> !Loose(w, e)) ==> Times(log, j) <= 1
    ensures (forall e :: e in log ==> e.frame != j) ==> Times(log, j) == 0
  {
    if |log| > 0 {
      var before, last := log[..|log| - 1], log[|log| - 1];
      TimesBound(w, before, j);
      if last.frame == j {
        forall e | e in before && e.frame == j ensures Loose(w, e) && !Loose(w, last) {
          var a :| 0 <= a < |before| && before[a] == e;
          assert log[a] == e;
        }
      }
    }
  }

  /** A loose frame was at least SafeSpan ahead, and exactly MaxBuffered ahead unless an unaligned
      wrap lay between. */
  lemma LooseIsFar(w: Window, e: Take)
    requires e.base <= e.frame <= e.base + MaxBuffered(w)
    ensures Loose(w, e) ==> e.base + SafeSpan(w) <= e.frame
    ensures Aligned(w) || Lap(w, e.base) == Lap(w, e.frame) ==>
              (Loose(w, e) <==> e.frame == e.base + MaxBuffered(w))
  {
    forall p: nat | e.base <= p < e.frame && p + SafeSpan(w) > e.frame ensures Ring(w, p) != Ring(w, e.frame) {
      SafePair(w, p, e.frame);
    }
    if Aligned(w) || Lap(w, e.base) == Lap(w, e.frame) {
      forall p: nat | e.base <= p < e.frame
        ensures Ring(w, p) == Ring(w, e.frame) <==> e.frame == p + MaxBuffered(w)
      {
        FlatPair(w, e.base, e.frame + 1, p, e.frame);
      }
      if e.frame == e.base + MaxBuffered(w) { assert Ring(w, e.base) == Ring(w, e.frame); }
    }
  }

  /** Under arbitrary loss, duplication, reordering and catch-up, across any number of wraps, no
      frame is processed more than twice; twice only if the first time was at least SafeSpan ahead
      of the position, exactly MaxBuffered ahead where no unaligned wrap lay between. */
  lemma AtMostTwiceEver(w: Window, arrivals: seq<nat>, j: nat)
    ensures var log := Run(w, START, arrivals).log;
            && Times(log, j) <= 2
            && LooseThenFirm(w, log)
            && forall a, b :: 0 <= a < b < |log| && log[a].frame == log[b].frame ==>
                 && log[a].base + SafeSpan(w) <= log[a].frame
                 && (Aligned(w) || Lap(w, log[a].base) == Lap(w, log[a].frame) ==>
                      log[a].frame == log[a].base + MaxBuffered(w))
  {
    RunSound(w, arrivals);
    var log := Run(w, START, arrivals).log;
    TimesBound(w, log, j);
    forall a, b | 0 <= a < b < |log| && log[a].frame == log[b].frame
      ensures log[a].base + SafeSpan(w) <= log[a].frame
      ensures Aligned(w) || Lap(w, log[a].base) == Lap(w, log[a].frame) ==>
                log[a].frame == log[a].base + MaxBuffered(w)
    {
      assert log[a] in log;
      LooseIsFar(w, log[a]);
    }
  }
}
