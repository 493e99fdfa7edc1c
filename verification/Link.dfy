/** Sender, channel and receiver together: whatever the channel loses, repeats or reorders, the
    byte-level receiver is the absolute window model and the sink gets the source's own blocks. */
module Link {
  import opened Constants
  import opened Cipher
  import opened Datagram
  import opened SlidingWindow
  import opened Position
  import opened Sender
  import opened Receiver
  import opened Burst

  /** Everything the sender emitted: frame n, and the millisecond at which datagram n left. */
  datatype History = History(frames: seq<Frame>, times: seq<nat>)

  /** A copy of datagram `n` reaching the receiver at millisecond `at`. */
  datatype Arrival = Arrival(n: nat, at: nat, b: bytes)

  /** `late` comes so long after `early` that its cycle is just before or past that of `early` in the
      next lap. */
  predicate LapApart(w: Window, early: nat, late: nat) {
    early + MaxCycle(w) <= late + MAX_AHEAD + 1
  }

  /** Nearly a lap of datagrams takes longer than MAX_AGE to send: about 30 a millisecond. */
  ghost predicate Paced(w: Window, h: History) {
    && |h.times| == |h.frames|
    && forall i, j :: 0 <= i < |h.times| && 0 <= j < |h.times| && LapApart(w, i, j) ==>
         h.times[i] + MAX_AGE < h.times[j]
  }

  /** A faithful copy, less than one turn of the u16 clock old. */
  ghost predicate Genuine(size: nat, w: Window, keys: Keys, h: History, a: Arrival) {
    && a.n < |h.frames| == |h.times|
    && h.times[a.n] <= a.at < h.times[a.n] + 65536
    && IsDatagram(size, w, keys, h.frames, a.n, h.times[a.n] % 65536, a.b)
  }

  ghost predicate GenuineRun(size: nat, w: Window, keys: Keys, h: History, arrivals: seq<Arrival>) {
    && (forall i :: 0 <= i < |arrivals| ==> Genuine(size, w, keys, h, arrivals[i]))
    && (forall i, j :: 0 <= i < j < |arrivals| ==> arrivals[i].at <= arrivals[j].at)
  }

  /** What a datagram carries does not change as the history grows. */
  lemma StillDatagram(size: nat, w: Window, keys: Keys, early: seq<Frame>, late: seq<Frame>,
                      n: nat, timestamp: nat, b: bytes)
    requires timestamp < 65536 && early <= late && n < |early|
    requires IsDatagram(size, w, keys, early, n, timestamp, b)
    ensures IsDatagram(size, w, keys, late, n, timestamp, b)
  {
  }

  // ----- the sender's run

  /** One poll of the source, at millisecond `at`. */
  datatype Tick = Tick(polled: Frame, at: nat)

  /** What a new sender emits over a run of polls. */
  ghost function Emit(w: Window, ticks: seq<Tick>): History {
    if |ticks| == 0 then History([], [])
    else
      var before, tick := Emit(w, ticks[..|ticks| - 1]), ticks[|ticks| - 1];
      if Busy(w, before.frames, tick.polled)
      then History(before.frames + [tick.polled], before.times + [tick.at])
      else before
  }

  /** The polls are paced like that, and of blocks of the right size. */
  ghost predicate Clocked(size: nat, w: Window, ticks: seq<Tick>) {
    && (forall i, j :: 0 <= i < |ticks| && 0 <= j < |ticks| && LapApart(w, i, j) ==>
          ticks[i].at + MAX_AGE < ticks[j].at)
    && (forall i :: 0 <= i < |ticks| && ticks[i].polled.Some? ==> |ticks[i].polled.value| == size)
  }

  /** Datagram `n` left at poll `k`, after which there were at least as many polls as datagrams. */
  ghost predicate SentAt(ticks: seq<Tick>, h: History, n: nat, k: nat) {
    n < |h.times| && k < |ticks| && h.times[n] == ticks[k].at && k + (|h.times| - n) <= |ticks|
  }

  lemma {:induction false} EmitSentAt(w: Window, ticks: seq<Tick>, n: nat)
    requires n < |Emit(w, ticks).times|
    ensures exists k: nat :: SentAt(ticks, Emit(w, ticks), n, k)
  {
    var before := ticks[..|ticks| - 1];
    var h, h' := Emit(w, before), Emit(w, ticks);
    if n < |h.times| {
      EmitSentAt(w, before, n);
      var k: nat :| SentAt(before, h, n, k);
      assert SentAt(ticks, h', n, k);
    } else {
      assert SentAt(ticks, h', n, |ticks| - 1);
    }
  }

  /** The next datagram comes late enough after the one almost a lap before it. */
  lemma NextIsLate(size: nat, w: Window, ticks: seq<Tick>, n: nat)
    requires Clocked(size, w, ticks) && |ticks| > 0
    requires n < |Emit(w, ticks[..|ticks| - 1]).times|
    requires LapApart(w, n, |Emit(w, ticks[..|ticks| - 1]).times|)
    ensures Emit(w, ticks[..|ticks| - 1]).times[n] + MAX_AGE < ticks[|ticks| - 1].at
  {
    var before := ticks[..|ticks| - 1];
    EmitSentAt(w, before, n);
    var k: nat :| SentAt(before, Emit(w, before), n, k);
    assert LapApart(w, k, |before|);
  }

  lemma PacedGrows(w: Window, h: History, p: Frame, at: nat)
    requires Paced(w, h)
    requires forall n :: 0 <= n < |h.times| && LapApart(w, n, |h.times|) ==> h.times[n] + MAX_AGE < at
    ensures Paced(w, History(h.frames + [p], h.times + [at]))
  {
  }

  lemma {:induction false} EmitPaced(size: nat, w: Window, ticks: seq<Tick>)
    requires Clocked(size, w, ticks)
    ensures Paced(w, Emit(w, ticks))
  {
    if |ticks| > 0 {
      var before, tick := ticks[..|ticks| - 1], ticks[|ticks| - 1];
      EmitPaced(size, w, before);
      var h := Emit(w, before);
      forall n | 0 <= n < |h.times| && LapApart(w, n, |h.times|) ensures h.times[n] + MAX_AGE < tick.at {
        NextIsLate(size, w, ticks, n);
      }
      PacedGrows(w, h, tick.polled, tick.at);
    }
  }

  /** The datagrams of a history, each stamped with the millisecond it left. */
  ghost predicate Emitted(size: nat, w: Window, keys: Keys, h: History, datagrams: seq<bytes>) {
    && |datagrams| == |h.frames| == |h.times|
    && forall n :: 0 <= n < |datagrams| ==>
         IsDatagram(size, w, keys, h.frames, n, h.times[n] % 65536, datagrams[n])
  }

  lemma EmittedGrows(size: nat, w: Window, keys: Keys, h: History, datagrams: seq<bytes>,
                     p: Frame, at: nat, b: bytes)
    requires Emitted(size, w, keys, h, datagrams)
    requires IsDatagram(size, w, keys, h.frames + [p], |h.frames|, at % 65536, b)
    ensures Emitted(size, w, keys, History(h.frames + [p], h.times + [at]), datagrams + [b])
  {
    var late := h.frames + [p];
    forall n | 0 <= n < |datagrams| ensures IsDatagram(size, w, keys, late, n, h.times[n] % 65536, datagrams[n]) {
      StillDatagram(size, w, keys, h.frames, late, n, h.times[n] % 65536, datagrams[n]);
    }
  }

  /** The sender polled once a tick: it emits exactly the datagrams of `Emit`. */
  method Transmit(sender: Sender, ticks: seq<Tick>) returns (datagrams: seq<bytes>)
    requires sender.Valid() && sender.frames == [] && Clocked(sender.size, sender.w, ticks)
    modifies sender`cycle, sender`frames, sender.flags, sender.buffer
    ensures sender.Valid() && sender.frames == Emit(sender.w, ticks).frames
    ensures Emitted(sender.size, sender.w, sender.keys, Emit(sender.w, ticks), datagrams)
  {
    datagrams := [];
    for i := 0 to |ticks|
      invariant sender.Valid() && sender.frames == Emit(sender.w, ticks[..i]).frames
      invariant Emitted(sender.size, sender.w, sender.keys, Emit(sender.w, ticks[..i]), datagrams)
    {
      var tick := ticks[i];
      ghost var h := Emit(sender.w, ticks[..i]);
      assert ticks[..i + 1][..i] == ticks[..i];
      var polled := if tick.polled.Some? then tick.polled.value else Zeros(sender.size);
      var r := sender.PollDatagram(tick.at % 65536, tick.polled.Some?, polled);
      if r.Some? {
        EmittedGrows(sender.size, sender.w, sender.keys, h, datagrams, tick.polled, tick.at, r.value);
        datagrams := datagrams + [r.value];
      }
    }
    assert ticks[..|ticks|] == ticks;
  }

  /** Copies of what the sender emitted, however lost, repeated and reordered, are a genuine run. */
  lemma CopiesAreGenuine(size: nat, w: Window, keys: Keys, ticks: seq<Tick>, datagrams: seq<bytes>,
                         arrivals: seq<Arrival>)
    requires Clocked(size, w, ticks) && Emitted(size, w, keys, Emit(w, ticks), datagrams)
    requires forall i :: 0 <= i < |arrivals| ==>
               var a := arrivals[i];
               && a.n < |datagrams| && a.b == datagrams[a.n]
               && Emit(w, ticks).times[a.n] <= a.at < Emit(w, ticks).times[a.n] + 65536
    requires forall i, j :: 0 <= i < j < |arrivals| ==> arrivals[i].at <= arrivals[j].at
    ensures Paced(w, Emit(w, ticks)) && GenuineRun(size, w, keys, Emit(w, ticks), arrivals)
  {
    EmitPaced(size, w, ticks);
  }

  // ----- acceptance

  /** The cycle test alone, for a datagram less than a lap ahead and not almost a lap behind. */
  lemma CycleTestIsExact(w: Window, pos: nat, n: nat)
    requires n < pos + MaxCycle(w) && pos + MAX_AHEAD < n + MaxCycle(w)
    ensures Ahead(w, pos, CycleOf(w, n)) <= MAX_AHEAD <==> pos <= n <= pos + MAX_AHEAD
    ensures pos <= n ==> Ahead(w, pos, CycleOf(w, n)) == n - pos
  {
    var m, c := MaxCycle(w), CycleOf(w, n);
    ModIs(c, m, 0, c);
    CycleDistance(w, c, n, pos);
    DistanceWithinLap(w, n - pos);
  }

  lemma GenuineHeader(size: nat, w: Window, keys: Keys, h: History, a: Arrival)
    requires keys.Valid() && Genuine(size, w, keys, h, a)
    ensures HEADER_SIZE <= |a.b|
    ensures HeaderCycle(keys, a.b) == CycleOf(w, a.n)
    ensures Age(a.at % 65536, HeaderTime(keys, a.b)) == a.at - h.times[a.n]
  {
    var t := h.times[a.n] % 65536;
    HeaderRoundTrip(keys, CycleOf(w, a.n), t);
    assert HeaderTime(keys, a.b) == t;
    AgeIsTrue(a.at, h.times[a.n]);
  }

  lemma AgeIsTrue(now: nat, sent: nat)
    requires sent <= now < sent + 65536
    ensures Age(now % 65536, sent % 65536) == now - sent
  {
  }

  ghost predicate Fresh(h: History, a: Arrival)
    requires a.n < |h.times|
  {
    a.at - h.times[a.n] <= MAX_AGE
  }

  /** The two wrapping tests are exact: a genuine datagram less than a lap ahead is admitted if and
      only if it is at most 2048 ms old and 0 to 256 ahead of the position; one from an earlier lap
      never is. */
  lemma AcceptanceIsExact(size: nat, w: Window, keys: Keys, h: History, a: Arrival, pos: nat, newest: int)
    requires keys.Valid() && Paced(w, h) && Genuine(size, w, keys, h, a)
    requires pos <= newest + 1 && newest < |h.times|
    requires 0 <= newest ==> h.times[newest] <= a.at
    requires a.at - h.times[a.n] <= 2048 ==> a.n < pos + MaxCycle(w)
    ensures HEADER_SIZE <= |a.b|
    ensures Admits(w, keys, pos, a.at % 65536, a.b) <==>
            a.at - h.times[a.n] <= 2048 && pos <= a.n <= pos + 256
    ensures Admits(w, keys, pos, a.at % 65536, a.b) ==> Claimed(w, keys, pos, a.b) == a.n
  {
    GenuineHeader(size, w, keys, h, a);
    if Fresh(h, a) {
      if 0 <= newest && LapApart(w, a.n, newest) { assert h.times[a.n] + MAX_AGE < h.times[newest]; }
      CycleTestIsExact(w, pos, a.n);
    }
  }

  /** With no premise on laps: a genuine datagram is admitted if and only if it is at most 2048 ms old
      and its number is at most 256 past the position modulo a lap; it is then taken for the frame
      that far ahead. */
  lemma AcceptanceModulo(size: nat, w: Window, keys: Keys, h: History, a: Arrival, pos: nat)
    requires keys.Valid() && Genuine(size, w, keys, h, a)
    ensures HEADER_SIZE <= |a.b|
    ensures Admits(w, keys, pos, a.at % 65536, a.b) <==>
            a.at - h.times[a.n] <= 2048 && (a.n - pos) % MaxCycle(w) <= 256
    ensures Claimed(w, keys, pos, a.b) == pos + (a.n - pos) % MaxCycle(w)
  {
    GenuineHeader(size, w, keys, h, a);
    var c := CycleOf(w, a.n);
    ModIs(c, MaxCycle(w), 0, c);
    CycleDistance(w, c, a.n, pos);
  }

  /** When a stalled receiver wakes: fresh datagrams more than MAX_AHEAD ahead change nothing for the
      rest of the lap, and the first MAX_AHEAD + 1 after that are taken for the frames one lap
      before them. */
  lemma StallEnds(size: nat, w: Window, keys: Keys, h: History, a: Arrival, e: Endpoint)
    requires keys.Valid() && Genuine(size, w, keys, h, a) && Fresh(h, a)
    requires e.state.pos + MAX_AHEAD < a.n <= e.state.pos + MaxCycle(w) + MAX_AHEAD
    ensures |a.b| == DatagramSize(size, w)
    ensures a.n < e.state.pos + MaxCycle(w) ==> Receive(size, w, keys, e, a.at % 65536, a.b) == e
    ensures e.state.pos + MaxCycle(w) <= a.n ==>
              Receive(size, w, keys, e, a.at % 65536, a.b).state == Step(w, e.state, a.n - MaxCycle(w))
  {
    var m, d := MaxCycle(w), a.n - e.state.pos;
    AcceptanceModulo(size, w, keys, h, a, e.state.pos);
    ModIs(d, m, if d < m then 0 else 1, if d < m then d else d - m);
  }

  // ----- content

  /** The blocks of the frames in `takes`, in that order; a frame whose sealed block is all zeros is
      indistinguishable from an absent one. */
  function Contents(keys: Keys, size: nat, frames: seq<Frame>, takes: seq<Take>): seq<bytes> {
    if |takes| == 0 then []
    else
      var f := Content(frames, takes[|takes| - 1].frame);
      Contents(keys, size, frames, takes[..|takes| - 1])
      + (if f.Some? && EncryptSlot(keys, f.value) != Zeros(size) then [f.value] else [])
  }

  /** Exactly one block travels as zeros and is lost: the one zeros decrypt to. */
  lemma InvisibleIff(keys: Keys, size: nat, block: bytes)
    requires keys.Valid() && |block| == size
    ensures EncryptSlot(keys, block) == Zeros(size) <==> block == DecryptSlot(keys, Zeros(size))
  {
    SlotRoundTrip(keys, block);
    SlotRoundTrip(keys, Zeros(size));
  }

  lemma {:induction false} ContentsConcat(keys: Keys, size: nat, frames: seq<Frame>, a: seq<Take>, b: seq<Take>)
    ensures Contents(keys, size, frames, a + b) == Contents(keys, size, frames, a) + Contents(keys, size, frames, b)
  {
    if |b| == 0 {
      assert a + b == a;
    } else {
      assert (a + b)[..|a + b| - 1] == a + b[..|b| - 1];
      ContentsConcat(keys, size, frames, a, b[..|b| - 1]);
    }
  }

  /** The receiver's slot for a frame is the sender's. */
  lemma {:induction false} DeliveredIsContents(size: nat, w: Window, keys: Keys, frames: seq<Frame>,
                                               n: nat, b: bytes, takes: seq<Take>)
    requires keys.Valid() && |b| == DatagramSize(size, w) && Carries(size, w, keys, frames, n, b)
    requires forall e :: e in takes ==> n - w < e.frame <= n
    ensures Delivered(size, w, keys, b, takes) == Contents(keys, size, frames, takes)
  {
    if |takes| > 0 {
      DeliveredIsContents(size, w, keys, frames, n, b, takes[..|takes| - 1]);
      var j := takes[|takes| - 1].frame;
      assert takes[|takes| - 1] in takes;
      assert Slot(size, w, b, j % w) == Cell(keys, size, Content(frames, j));
      if Content(frames, j).Some? { SlotRoundTrip(keys, Content(frames, j).value); }
    }
  }

  // ----- whole runs

  /** The receiver's state and sink after a run of arrivals. */
  ghost function Deliver(size: nat, w: Window, keys: Keys, arrivals: seq<Arrival>): Endpoint
    requires keys.Valid() && forall i :: 0 <= i < |arrivals| ==> |arrivals[i].b| == DatagramSize(size, w)
  {
    if |arrivals| == 0 then Endpoint(START, [])
    else
      var a := arrivals[|arrivals| - 1];
      Receive(size, w, keys, Deliver(size, w, keys, arrivals[..|arrivals| - 1]), a.at % 65536, a.b)
  }

  /** The numbers of the arrivals that are not too old, in order. */
  ghost function Numbers(h: History, arrivals: seq<Arrival>): seq<nat>
    requires forall i :: 0 <= i < |arrivals| ==> arrivals[i].n < |h.times|
  {
    if |arrivals| == 0 then []
    else
      var a := arrivals[|arrivals| - 1];
      Numbers(h, arrivals[..|arrivals| - 1]) + (if Fresh(h, a) then [a.n] else [])
  }

  /** The receiver handed one datagram after another: its state and sink are those of `Deliver`. */
  method Play(receiver: Receiver, arrivals: seq<Arrival>)
    requires receiver.Valid() && receiver.state == START && receiver.sink == []
    requires forall i :: 0 <= i < |arrivals| ==> |arrivals[i].b| == DatagramSize(receiver.size, receiver.w)
    modifies receiver, receiver.flags
    ensures receiver.Valid() && receiver.flags == old(receiver.flags)
    ensures Endpoint(receiver.state, receiver.sink) ==
            Deliver(receiver.size, receiver.w, receiver.keys, arrivals)
  {
    for i := 0 to |arrivals|
      invariant receiver.Valid() && receiver.flags == old(receiver.flags)
      invariant Endpoint(receiver.state, receiver.sink) ==
                Deliver(receiver.size, receiver.w, receiver.keys, arrivals[..i])
    {
      var a := arrivals[i];
      assert arrivals[..i + 1][..i] == arrivals[..i];
      var datagram := new byte[|a.b|](k requires 0 <= k < |a.b| => a.b[k]);
      assert datagram[..] == a.b;
      receiver.HandleDatagram(a.at % 65536, datagram);
    }
    assert arrivals[..|arrivals|] == arrivals;
  }

  /** Every arrival is less than a lap ahead of the position it meets. */
  ghost predicate WithinLap(w: Window, numbers: seq<nat>) {
    forall i :: 0 <= i < |numbers| ==> numbers[i] < Run(w, START, numbers[..i]).pos + MaxCycle(w)
  }

  /** The newest accepted number is one of the numbers. */
  lemma {:induction false} NewestIsOne(w: Window, numbers: seq<nat>)
    ensures Newest(w, START, numbers) == -1 || Newest(w, START, numbers) in numbers
  {
    if |numbers| > 0 { NewestIsOne(w, numbers[..|numbers| - 1]); }
  }

  lemma {:induction false} NumbersArrived(h: History, arrivals: seq<Arrival>, n: nat)
    requires forall i :: 0 <= i < |arrivals| ==> arrivals[i].n < |h.times|
    requires n in Numbers(h, arrivals)
    ensures exists i :: 0 <= i < |arrivals| && arrivals[i].n == n
  {
    var before, last := arrivals[..|arrivals| - 1], arrivals[|arrivals| - 1];
    if last.n != n {
      NumbersArrived(h, before, n);
      var i :| 0 <= i < |before| && before[i].n == n;
      assert arrivals[i].n == n;
    }
  }

  /** The newest accepted number arrived, so it had left by then. */
  lemma NewestHasLeft(w: Window, h: History, arrivals: seq<Arrival>, at: nat)
    requires forall i :: 0 <= i < |arrivals| ==>
               arrivals[i].n < |h.times| && h.times[arrivals[i].n] <= arrivals[i].at <= at
    ensures var newest := Newest(w, START, Numbers(h, arrivals));
            newest < |h.times| && (0 <= newest ==> h.times[newest] <= at)
  {
    var newest := Newest(w, START, Numbers(h, arrivals));
    NewestIsOne(w, Numbers(h, arrivals));
    if 0 <= newest { NumbersArrived(h, arrivals, newest); }
  }

  lemma NumbersSnoc(h: History, arrivals: seq<Arrival>)
    requires |arrivals| > 0 && forall i :: 0 <= i < |arrivals| ==> arrivals[i].n < |h.times|
    ensures var a := arrivals[|arrivals| - 1];
            var numbers := Numbers(h, arrivals[..|arrivals| - 1]);
            if Fresh(h, a) then
              |Numbers(h, arrivals)| == |numbers| + 1
              && Numbers(h, arrivals)[..|numbers|] == numbers && Numbers(h, arrivals)[|numbers|] == a.n
            else Numbers(h, arrivals) == numbers
  {
  }

  /** An accepted datagram logs what its sink loop took. */
  lemma AcceptLogs(w: Window, s: State, n: nat)
    ensures Accept(w, s, n).log == s.log + Takes(w, CaughtUp(w, s, n), n, w)
  {
    CatchUpPos(w, s, Excess(w, s, n));
    TakesAreLogged(w, CaughtUp(w, s, n), n, w);
    AdvanceMoves(w, Sunk(w, s, n));
  }

  /** One genuine arrival moves the byte-level receiver exactly as its number moves the window
      model, and hands the sink the source's blocks. */
  lemma GenuineStep(size: nat, w: Window, keys: Keys, h: History, a: Arrival, e: Endpoint, newest: int)
    requires keys.Valid() && Paced(w, h) && Genuine(size, w, keys, h, a)
    requires e.state.pos <= newest + 1 && newest < |h.times| && (0 <= newest ==> h.times[newest] <= a.at)
    requires Fresh(h, a) ==> a.n < e.state.pos + MaxCycle(w)
    requires e.sink == Contents(keys, size, h.frames, e.state.log)
    ensures var r := Receive(size, w, keys, e, a.at % 65536, a.b);
            && r.state == (if Fresh(h, a) then Step(w, e.state, a.n) else e.state)
            && r.sink == Contents(keys, size, h.frames, r.state.log)
  {
    AcceptanceIsExact(size, w, keys, h, a, e.state.pos, newest);
    if Fresh(h, a) && Accepts(e.state, a.n) {
      var takes := Takes(w, CaughtUp(w, e.state, a.n), a.n, w);
      TakesAreLogged(w, CaughtUp(w, e.state, a.n), a.n, w);
      DeliveredIsContents(size, w, keys, h.frames, a.n, a.b, takes);
      AcceptLogs(w, e.state, a.n);
      ContentsConcat(keys, size, h.frames, e.state.log, takes);
    }
  }

  /** The byte-level run matches the run of numbers, and the sink the source. */
  ghost predicate Matches(size: nat, w: Window, keys: Keys, h: History, numbers: seq<nat>, e: Endpoint) {
    e.state == Run(w, START, numbers) && e.sink == Contents(keys, size, h.frames, e.state.log)
  }

  lemma MatchesStep(size: nat, w: Window, keys: Keys, h: History, arrivals: seq<Arrival>, e: Endpoint)
    requires keys.Valid() && Paced(w, h) && GenuineRun(size, w, keys, h, arrivals) && |arrivals| > 0
    requires WithinLap(w, Numbers(h, arrivals))
    requires Matches(size, w, keys, h, Numbers(h, arrivals[..|arrivals| - 1]), e)
    ensures var a := arrivals[|arrivals| - 1];
            && |a.b| == DatagramSize(size, w)
            && Matches(size, w, keys, h, Numbers(h, arrivals), Receive(size, w, keys, e, a.at % 65536, a.b))
  {
    var before := arrivals[..|arrivals| - 1];
    var a := arrivals[|arrivals| - 1];
    var numbers := Numbers(h, before);
    WithinLapPrefix(w, h, arrivals);
    PositionBound(w, numbers);
    NewestHasLeft(w, h, before, a.at);
    GenuineStep(size, w, keys, h, a, e, Newest(w, START, numbers));
    NumbersSnoc(h, arrivals);
  }

  /** End to end, for every window size and any number of wraps: the receiver fed with bytes is the
      window model fed with numbers, and the sink has received exactly the source's blocks of the
      processed frames, in the order they were processed. */
  lemma {:induction false} EndToEnd(size: nat, w: Window, keys: Keys, h: History, arrivals: seq<Arrival>)
    requires keys.Valid() && Paced(w, h) && GenuineRun(size, w, keys, h, arrivals)
    requires WithinLap(w, Numbers(h, arrivals))
    ensures Matches(size, w, keys, h, Numbers(h, arrivals), Deliver(size, w, keys, arrivals))
  {
    if |arrivals| > 0 {
      var before := arrivals[..|arrivals| - 1];
      WithinLapPrefix(w, h, arrivals);
      EndToEnd(size, w, keys, h, before);
      MatchesStep(size, w, keys, h, arrivals, Deliver(size, w, keys, before));
    }
  }

  lemma WithinLapPrefix(w: Window, h: History, arrivals: seq<Arrival>)
    requires |arrivals| > 0 && forall i :: 0 <= i < |arrivals| ==> arrivals[i].n < |h.times|
    requires WithinLap(w, Numbers(h, arrivals))
    ensures var numbers := Numbers(h, arrivals[..|arrivals| - 1]);
            var a := arrivals[|arrivals| - 1];
            && WithinLap(w, numbers)
            && (Fresh(h, a) ==> a.n < Run(w, START, numbers).pos + MaxCycle(w))
  {
    var numbers := Numbers(h, arrivals[..|arrivals| - 1]);
    var all := Numbers(h, arrivals);
    assert all[..|numbers|] == numbers;
    forall i | 0 <= i < |numbers| ensures numbers[i] < Run(w, START, numbers[..i]).pos + MaxCycle(w) {
      assert all[..i] == numbers[..i] && all[i] == numbers[i];
    }
    if Fresh(h, arrivals[|arrivals| - 1]) { assert all[|numbers|] == arrivals[|arrivals| - 1].n; }
  }

  /** Fewer than a window of consecutive datagrams lost, any lateness, any repetition: the sink
      has received every block up to the newest arrival exactly once, newest first within each
      datagram. */
  lemma ExactlyOnceEndToEnd(size: nat, w: Window, keys: Keys, h: History, arrivals: seq<Arrival>)
    requires keys.Valid() && Paced(w, h) && GenuineRun(size, w, keys, h, arrivals)
    requires Bursty(w, Numbers(h, arrivals))
    ensures Deliver(size, w, keys, arrivals).sink ==
            Contents(keys, size, h.frames, IdealLog(Numbers(h, arrivals)))
  {
    var numbers := Numbers(h, arrivals);
    forall i | 0 <= i < |numbers| ensures numbers[i] < Run(w, START, numbers[..i]).pos + MaxCycle(w) {
      assert forall k :: 0 <= k < i ==> numbers[..i][..k] == numbers[..k];
      ExactlyOnce(w, numbers[..i]);
    }
    ExactlyOnce(w, numbers);
    EndToEnd(size, w, keys, h, arrivals);
  }
}
