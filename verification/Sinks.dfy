/** What the sink has received over whole runs, block by block: how often, and that the order of
    arrival makes no difference. */
module Sinks {
  import opened Constants
  import opened Cipher
  import opened Datagram
  import opened SlidingWindow
  import opened Receiver
  import opened Burst
  import opened Coverage
  import opened Link

  function Without(log: seq<Take>, i: nat): (r: seq<Take>)
    requires i < |log|
    ensures |r| == |log| - 1
  {
    log[..i] + log[i + 1..]
  }

  lemma TimesWithout(log: seq<Take>, i: nat, j: nat)
    requires i < |log|
    ensures Times(log, j) == Times(Without(log, i), j) + (if log[i].frame == j then 1 else 0)
  {
    var a, e, b := log[..i], [log[i]], log[i + 1..];
    assert log == (a + e) + b && e[..0] == [];
    TimesConcat(a + e, b, j);
    TimesConcat(a, e, j);
    TimesConcat(a, b, j);
  }

  /** The block of one frame, if it is delivered; it does not depend on the position. */
  function Block(keys: Keys, size: nat, frames: seq<Frame>, j: nat): seq<bytes> {
    Contents(keys, size, frames, [Take(j, 0)])
  }

  lemma OneContent(keys: Keys, size: nat, frames: seq<Frame>, e: Take)
    ensures Contents(keys, size, frames, [e]) == Block(keys, size, frames, e.frame)
  {
    assert [e][..0] == [Take(e.frame, 0)][..0] == [];
  }

  lemma ContentsWithout(keys: Keys, size: nat, frames: seq<Frame>, log: seq<Take>, i: nat)
    requires i < |log|
    ensures multiset(Contents(keys, size, frames, log)) ==
            multiset(Contents(keys, size, frames, Without(log, i))) + multiset(Block(keys, size, frames, log[i].frame))
  {
    var a, e, b := log[..i], [log[i]], log[i + 1..];
    assert log == (a + e) + b;
    ContentsConcat(keys, size, frames, a + e, b);
    ContentsConcat(keys, size, frames, a, e);
    ContentsConcat(keys, size, frames, a, b);
    OneContent(keys, size, frames, log[i]);
  }

  ghost predicate SameTimes(one: seq<Take>, two: seq<Take>) {
    forall j: nat :: Times(one, j) == Times(two, j)
  }

  /** Logs that process every frame equally often can be matched entry by entry. */
  lemma Match(one: seq<Take>, two: seq<Take>) returns (i: nat)
    requires SameTimes(one, two) && |one| > 0
    ensures i < |two| && two[i].frame == one[0].frame && SameTimes(Without(one, 0), Without(two, i))
  {
    TimesIfPresent(one, one[0].frame);
    TimesIfPresent(two, one[0].frame);
    i :| 0 <= i < |two| && two[i].frame == one[0].frame;
    forall j: nat ensures Times(Without(one, 0), j) == Times(Without(two, i), j) {
      TimesWithout(one, 0, j);
      TimesWithout(two, i, j);
    }
  }

  /** They deliver the same blocks equally often. */
  lemma {:induction false} SameContents(keys: Keys, size: nat, frames: seq<Frame>, one: seq<Take>, two: seq<Take>)
    requires SameTimes(one, two)
    ensures multiset(Contents(keys, size, frames, one)) == multiset(Contents(keys, size, frames, two))
    decreases |one|
  {
    if |one| == 0 {
      if |two| > 0 { TimesIfPresent(two, two[0].frame); }
    } else {
      var i := Match(one, two);
      ContentsWithout(keys, size, frames, one, 0);
      ContentsWithout(keys, size, frames, two, i);
      SameContents(keys, size, frames, Without(one, 0), Without(two, i));
    }
  }

  lemma InRangeIsWithinLap(w: Window, numbers: seq<nat>)
    requires InRange(w, numbers)
    ensures WithinLap(w, numbers)
  {
  }

  /** Two arrival orders of the same datagrams, with whatever copies and late arrivals, across any
      number of wraps: while arrivals are near the position, the stored cycle and flags end the same
      and the sink has received the same blocks, equally often. */
  lemma SameSinks(size: nat, w: Window, keys: Keys, h: History, one: seq<Arrival>, two: seq<Arrival>)
    requires keys.Valid() && Paced(w, h) && GenuineRun(size, w, keys, h, one) && GenuineRun(size, w, keys, h, two)
    requires InRange(w, Numbers(h, one)) && InRange(w, Numbers(h, two))
    requires forall n :: n in Numbers(h, one) <==> n in Numbers(h, two)
    ensures var r1, r2 := Deliver(size, w, keys, one), Deliver(size, w, keys, two);
            && r1.state.pos == r2.state.pos && r1.state.flags == r2.state.flags
            && multiset(r1.sink) == multiset(r2.sink)
  {
    InRangeIsWithinLap(w, Numbers(h, one));
    InRangeIsWithinLap(w, Numbers(h, two));
    EndToEnd(size, w, keys, h, one);
    EndToEnd(size, w, keys, h, two);
    OrderIndependence(w, Numbers(h, one), Numbers(h, two));
    SameContents(keys, size, h.frames, Run(w, START, Numbers(h, one)).log, Run(w, START, Numbers(h, two)).log);
  }

  // ----- what is in the sink, block by block

  /** The frames below `k` that satisfy `P`, as a log. */
  ghost function Picked(k: nat, P: nat -> bool): seq<Take> {
    if k == 0 then [] else Picked(k - 1, P) + Pick(k - 1, P)
  }

  ghost function Pick(j: nat, P: nat -> bool): seq<Take> {
    if P(j) then [Take(j, 0)] else []
  }

  /** How many of the frames below `k` that satisfy `P` hold the block `v`. */
  ghost function Occurrences(frames: seq<Frame>, k: nat, P: nat -> bool, v: bytes): nat {
    if k == 0 then 0
    else Occurrences(frames, k - 1, P, v) + Occurs(frames, k - 1, P, v)
  }

  ghost function Occurs(frames: seq<Frame>, j: nat, P: nat -> bool, v: bytes): nat {
    if P(j) && Content(frames, j) == Some(v) then 1 else 0
  }

  lemma {:induction false} PickedTimes(k: nat, P: nat -> bool, j: nat)
    ensures Times(Picked(k, P), j) == if j < k && P(j) then 1 else 0
  {
    if k > 0 {
      PickedTimes(k - 1, P, j);
      PickTimes(k - 1, P, j);
      TimesConcat(Picked(k - 1, P), Pick(k - 1, P), j);
    }
  }

  lemma PickTimes(i: nat, P: nat -> bool, j: nat)
    ensures Times(Pick(i, P), j) == if j == i && P(j) then 1 else 0
  {
  }

  /** How often the block `v` is delivered for a log. */
  ghost function Tally(keys: Keys, size: nat, frames: seq<Frame>, log: seq<Take>, v: bytes): nat {
    multiset(Contents(keys, size, frames, log))[v]
  }

  lemma TallyConcat(keys: Keys, size: nat, frames: seq<Frame>, a: seq<Take>, b: seq<Take>, v: bytes)
    ensures Tally(keys, size, frames, a + b, v) == Tally(keys, size, frames, a, v) + Tally(keys, size, frames, b, v)
  {
    ContentsConcat(keys, size, frames, a, b);
  }

  lemma PickTally(keys: Keys, size: nat, frames: seq<Frame>, j: nat, P: nat -> bool, v: bytes)
    ensures Tally(keys, size, frames, Pick(j, P), v) ==
            if EncryptSlot(keys, v) == Zeros(size) then 0 else Occurs(frames, j, P, v)
  {
    if P(j) {
      var f := Content(frames, j);
      assert [Take(j, 0)][..0] == [];
      assert Contents(keys, size, frames, []) == [];
      assert Contents(keys, size, frames, [Take(j, 0)]) ==
             if f.Some? && EncryptSlot(keys, f.value) != Zeros(size) then [f.value] else [];
    }
  }

  /** An additive measure of logs is the sum over the picked frames. */
  lemma {:induction false} PickedSum(T: seq<Take> -> nat, frames: seq<Frame>, k: nat, P: nat -> bool, v: bytes, u: bool)
    requires T([]) == 0 && forall a, b :: T(a + b) == T(a) + T(b)
    requires forall j: nat :: T(Pick(j, P)) == if u then Occurs(frames, j, P, v) else 0
    ensures T(Picked(k, P)) == if u then Occurrences(frames, k, P, v) else 0
  {
    if k > 0 { PickedSum(T, frames, k - 1, P, v, u); }
  }

  ghost function TallyOf(keys: Keys, size: nat, frames: seq<Frame>, v: bytes): seq<Take> -> nat {
    log => Tally(keys, size, frames, log, v)
  }

  lemma PickedOften(keys: Keys, size: nat, frames: seq<Frame>, k: nat, P: nat -> bool, v: bytes)
    ensures Tally(keys, size, frames, Picked(k, P), v) ==
            if EncryptSlot(keys, v) == Zeros(size) then 0 else Occurrences(frames, k, P, v)
  {
    var T, u := TallyOf(keys, size, frames, v), EncryptSlot(keys, v) != Zeros(size);
    assert Contents(keys, size, frames, []) == [];
    forall a, b ensures T(a + b) == T(a) + T(b) { TallyConcat(keys, size, frames, a, b, v); }
    forall j: nat ensures T(Pick(j, P)) == if u then Occurs(frames, j, P, v) else 0 {
      PickTally(keys, size, frames, j, P, v);
    }
    PickedSum(T, frames, k, P, v, u);
  }

  /** The log holds exactly the frames below `k` that satisfy `P`, each once. */
  ghost predicate LogIs(log: seq<Take>, k: nat, P: nat -> bool) {
    forall j: nat :: Times(log, j) == if j < k && P(j) then 1 else 0
  }

  /** The sink has received the block `v` exactly as often as it occurs in the frames below `k` that
      satisfy `P`, but never the block that encrypts to zeros. */
  ghost predicate ReceivedOften(keys: Keys, size: nat, frames: seq<Frame>, sink: seq<bytes>,
                           k: nat, P: nat -> bool, v: bytes) {
    multiset(sink)[v] == if EncryptSlot(keys, v) == Zeros(size) then 0 else Occurrences(frames, k, P, v)
  }

  lemma SinkCounts(keys: Keys, size: nat, frames: seq<Frame>, sink: seq<bytes>, log: seq<Take>,
                   k: nat, P: nat -> bool, v: bytes)
    requires sink == Contents(keys, size, frames, log) && LogIs(log, k, P)
    ensures ReceivedOften(keys, size, frames, sink, k, P, v)
  {
    forall j: nat ensures Times(log, j) == Times(Picked(k, P), j) { PickedTimes(k, P, j); }
    SameContents(keys, size, frames, log, Picked(k, P));
    PickedOften(keys, size, frames, k, P, v);
  }

  /** Under bursty loss, lateness and repetition: the sink has received every block exactly as often
      as the source produced it up to the newest arrival, but for the one that encrypts to zeros. */
  lemma ExactlyOnceCounts(size: nat, w: Window, keys: Keys, h: History, arrivals: seq<Arrival>, v: bytes)
    requires keys.Valid() && Paced(w, h) && GenuineRun(size, w, keys, h, arrivals)
    requires Bursty(w, Numbers(h, arrivals))
    ensures ReceivedOften(keys, size, h.frames, Deliver(size, w, keys, arrivals).sink,
                     Last(Numbers(h, arrivals)) + 1, All(), v)
  {
    var numbers := Numbers(h, arrivals);
    ExactlyOnceEndToEnd(size, w, keys, h, arrivals);
    forall j: nat ensures Times(IdealLog(numbers), j) == if j < Last(numbers) + 1 then 1 else 0 {
      IdealLogIsExact(numbers, j);
    }
    var sink := Deliver(size, w, keys, arrivals).sink;
    SinkCounts(keys, size, h.frames, sink, IdealLog(numbers), Last(numbers) + 1, All(), v);
  }

  ghost function All(): nat -> bool {
    j => true
  }

  ghost function CoveredBy(w: Window, numbers: seq<nat>): nat -> bool {
    (j: nat) => Covered(w, numbers, j)
  }

  lemma CoverageLog(w: Window, numbers: seq<nat>)
    requires InRange(w, numbers)
    ensures LogIs(Run(w, START, numbers).log, Last(numbers) + 1, CoveredBy(w, numbers))
  {
    RunIsCoverage(w, numbers);
    var r := Run(w, START, numbers);
    forall j: nat ensures Times(r.log, j) == if j < Last(numbers) + 1 && Covered(w, numbers, j) then 1 else 0 {
      TimesIsTaken(r, j);
    }
  }

  lemma CoverageTally(size: nat, w: Window, keys: Keys, frames: seq<Frame>, numbers: seq<nat>, v: bytes)
    requires InRange(w, numbers)
    ensures ReceivedOften(keys, size, frames, Contents(keys, size, frames, Run(w, START, numbers).log),
                     Last(numbers) + 1, CoveredBy(w, numbers), v)
  {
    CoverageLog(w, numbers);
    var log, k, P := Run(w, START, numbers).log, Last(numbers) + 1, CoveredBy(w, numbers);
    SinkCounts(keys, size, frames, Contents(keys, size, frames, log), log, k, P, v);
  }

  lemma NearSink(size: nat, w: Window, keys: Keys, h: History, arrivals: seq<Arrival>)
    requires keys.Valid() && Paced(w, h) && GenuineRun(size, w, keys, h, arrivals)
    requires InRange(w, Numbers(h, arrivals))
    ensures Deliver(size, w, keys, arrivals).sink ==
            Contents(keys, size, h.frames, Run(w, START, Numbers(h, arrivals)).log)
  {
    InRangeIsWithinLap(w, Numbers(h, arrivals));
    EndToEnd(size, w, keys, h, arrivals);
  }

  /** In any order of near arrivals: the sink has received every block exactly as often as the
      source produced it in the frames some arrival carried. */
  lemma CoverageCounts(size: nat, w: Window, keys: Keys, h: History, arrivals: seq<Arrival>, v: bytes)
    requires keys.Valid() && Paced(w, h) && GenuineRun(size, w, keys, h, arrivals)
    requires InRange(w, Numbers(h, arrivals))
    ensures var numbers := Numbers(h, arrivals);
            ReceivedOften(keys, size, h.frames, Deliver(size, w, keys, arrivals).sink,
                     Last(numbers) + 1, CoveredBy(w, numbers), v)
  {
    NearSink(size, w, keys, h, arrivals);
    CoverageTally(size, w, keys, h.frames, Numbers(h, arrivals), v);
  }
}
