/** The receiver (crates/longboy/src/proto/receiver.rs): what one datagram of any content does to
    the stored cycle, the flags, the datagram buffer and the sink. */
module Receiver {
  import opened Constants
  import opened Cipher
  import opened Datagram
  import opened SlidingWindow
  import opened Position

  const MAX_AGE := 2048

  // ----- reading a header

  function HeaderCycle(keys: Keys, b: bytes): (c: nat)
    requires keys.Valid() && HEADER_SIZE <= |b|
    ensures c < 65536
  {
    Read16(keys.header.decrypt(b[..HEADER_SIZE])[0..2])
  }

  function HeaderTime(keys: Keys, b: bytes): (t: nat)
    requires keys.Valid() && HEADER_SIZE <= |b|
    ensures t < 65536
  {
    Read16(keys.header.decrypt(b[..HEADER_SIZE])[2..4])
  }

  /** How far the header cycle is ahead of the position, modulo a lap. */
  function Ahead(w: Window, pos: nat, c: nat): nat {
    (c + MaxCycle(w) - CycleOf(w, pos)) % MaxCycle(w)
  }

  /** Wrapping u16 subtraction. */
  function Age(now: nat, sent: nat): nat {
    (now - sent) % 65536
  }

  /** The header cycle is the cycle of the frame that far ahead of the position. */
  lemma AheadIsFrame(w: Window, pos: nat, c: nat)
    ensures c % MaxCycle(w) == CycleOf(w, pos + Ahead(w, pos, c))
  {
    var m := MaxCycle(w);
    var x := c + m - CycleOf(w, pos);
    assert pos + Ahead(w, pos, c) == c + (1 + pos / m - x / m) * m;
    ModShift(c, m, 1 + pos / m - x / m);
  }

  // ----- what the sink receives

  /** What slot `k` hands to the sink: its block opened, or nothing if the slot is all zeros. */
  function Payload(size: nat, w: Window, keys: Keys, b: bytes, k: nat): seq<bytes>
    requires k < w && |b| == DatagramSize(size, w)
  {
    if Slot(size, w, b, k) == Zeros(size) then [] else [DecryptSlot(keys, Slot(size, w, b, k))]
  }

  /** A slot off the wire: all zeros hand over nothing; any other slot hands over one block, the inverse
      cipher's image of every whole chunk and the rest as it is. */
  lemma SlotOffTheWire(size: nat, w: Window, keys: Keys, b: bytes, k: nat)
    requires keys.Valid() && k < w && |b| == DatagramSize(size, w)
    ensures var s, blocks := Slot(size, w, b, k), Payload(size, w, keys, b, k);
            if forall i :: 0 <= i < size ==> s[i] == 0 then blocks == []
            else |blocks| == 1 && Image(keys.slot.decrypt, s, blocks[0])
  {
    var s := Slot(size, w, b, k);
    ZerosAreZero(size, s);
    SlotImages(keys, s);
  }

  /** The blocks handed to the sink for the frames in `takes`. */
  function Delivered(size: nat, w: Window, keys: Keys, b: bytes, takes: seq<Take>): seq<bytes>
    requires |b| == DatagramSize(size, w)
  {
    if |takes| == 0 then []
    else Delivered(size, w, keys, b, takes[..|takes| - 1])
         + Payload(size, w, keys, b, takes[|takes| - 1].frame % w)
  }

  /** One more frame taken, one more slot delivered. */
  lemma DeliveredSnoc(size: nat, w: Window, keys: Keys, b: bytes, takes: seq<Take>, e: Take)
    requires |b| == DatagramSize(size, w)
    ensures Delivered(size, w, keys, b, takes + [e]) ==
            Delivered(size, w, keys, b, takes) + Payload(size, w, keys, b, e.frame % w)
  {
  }

  // ----- the stored flags

  function Raised(flags: seq<bool>): set<nat> {
    set x: nat | x < |flags| && flags[x]
  }

  lemma RaisedUpdate(flags: seq<bool>, x: nat, v: bool)
    requires x < |flags|
    ensures Raised(flags[x := v]) == if v then Raised(flags) + {x} else Raised(flags) - {x}
  {
  }

  // ----- the loops

  /** Once a frame is behind the position the remaining rounds do nothing. */
  lemma {:induction false} SinkStalls(w: Window, s: State, n: nat, i: nat, k: nat)
    requires n - i < s.pos && i <= k
    ensures Sink(w, s, n, k) == Sink(w, s, n, i)
  {
    if i < k { SinkStalls(w, s, n, i, k - 1); }
  }

  /** The frames the first `i` rounds of the sink loop take. */
  function Takes(w: Window, s: State, n: nat, i: nat): seq<Take> {
    if i == 0 then []
    else
      var before := Takes(w, s, n, i - 1);
      var j := n - (i - 1);
      if j < s.pos || Ring(w, j) in Sink(w, s, n, i - 1).flags then before else before + [Take(j, s.pos)]
  }

  lemma {:induction false} TakesAreLogged(w: Window, s: State, n: nat, i: nat)
    ensures Sink(w, s, n, i).log == s.log + Takes(w, s, n, i)
    ensures forall e :: e in Takes(w, s, n, i) ==> n - i < e.frame <= n && s.pos == e.base <= e.frame
  {
    if i > 0 { TakesAreLogged(w, s, n, i - 1); }
  }

  /** The sink loop's test for being behind the position. */
  lemma BehindTest(w: Window, c: nat, n: nat, pos: nat, i: nat)
    requires c % MaxCycle(w) == CycleOf(w, n) && pos <= n <= pos + MaxBuffered(w) && i < w
    ensures var ci := (c + MaxCycle(w) - i) % MaxCycle(w);
            && ci == CycleOf(w, n - i)
            && ((ci + MaxCycle(w) - CycleOf(w, pos)) % MaxCycle(w) > MaxBuffered(w) <==> n - i < pos)
  {
    CycleBack(w, c, n, i);
    var ci := CycleOf(w, n - i);
    ModIs(ci, MaxCycle(w), 0, ci);
    CycleDistance(w, ci, n - i, pos);
    DistanceWithinLap(w, n - i - pos);
  }

  /** What opening a slot leaves in it: the block, or the zeros of an absent frame. */
  function OpenedCell(keys: Keys, size: nat, cell: bytes): bytes {
    if cell == Zeros(size) then cell else DecryptSlot(keys, cell)
  }

  /** The bytes differ in nothing but that slot `k`, if `open`, is opened. */
  ghost predicate Opens(size: nat, w: Window, keys: Keys, before: bytes, after: bytes, k: nat, open: bool)
    requires |before| == |after| == DatagramSize(size, w)
  {
    && after[..HEADER_SIZE] == before[..HEADER_SIZE]
    && forall l :: 0 <= l < w ==>
         Slot(size, w, after, l) ==
           if l == k && open then OpenedCell(keys, size, Slot(size, w, before, l)) else Slot(size, w, before, l)
  }

  /** Open slot `k` in place and hand over its block. */
  method OpenSlotInPlace(size: nat, w: Window, keys: Keys, datagram: array<byte>, k: nat) returns (blocks: seq<bytes>)
    requires keys.Valid() && k < w && datagram.Length == DatagramSize(size, w)
    modifies datagram
    ensures blocks == Payload(size, w, keys, old(datagram[..]), k)
    ensures blocks == if Slot(size, w, old(datagram[..]), k) == Zeros(size) then []
                      else [Slot(size, w, datagram[..], k)]
    ensures Opens(size, w, keys, old(datagram[..]), datagram[..], k, true)
  {
    SlotFits(size, w, k);
    var start := SlotStart(size, k);
    var end := start + size;
    ghost var was := datagram[..];
    ghost var cell := Slot(size, w, was, k);
    assert datagram[start..end] == cell;
    SlotRoundTrip(keys, cell);
    SpliceOver(was, start, cell, DecryptSlot(keys, cell));
    if datagram[start..end] != Zeros(size) {
      DecryptSlotInPlace(keys, datagram, start, end);
      OthersKeep(size, w, keys, was, k);
      assert datagram[start..end] == datagram[..][start..end];
      blocks := [datagram[start..end]];
    } else {
      blocks := [];
    }
  }

  lemma OthersKeep(size: nat, w: Window, keys: Keys, b: bytes, k: nat)
    requires keys.Valid() && k < w && |b| == DatagramSize(size, w) && Slot(size, w, b, k) != Zeros(size)
    ensures |DecryptSlot(keys, Slot(size, w, b, k))| == size
    ensures Opens(size, w, keys, b, PutSlot(size, w, b, k, DecryptSlot(keys, Slot(size, w, b, k))), k, true)
  {
    var s := DecryptSlot(keys, Slot(size, w, b, k));
    SlotRoundTrip(keys, Slot(size, w, b, k));
    forall l | 0 <= l < w
      ensures Slot(size, w, PutSlot(size, w, b, k, s), l) == if l == k then s else Slot(size, w, b, l)
    {
      PutSlotReads(size, w, b, k, s, l);
    }
    PutSlotReads(size, w, b, k, s, k);
  }

  /** A datagram with its header opened. */
  function Unsealed(keys: Keys, b: bytes): (r: bytes)
    requires keys.Valid() && HEADER_SIZE <= |b|
    ensures |r| == |b|
  {
    Splice(b, 0, keys.header.decrypt(b[..HEADER_SIZE]))
  }

  method OpenHeader(keys: Keys, datagram: array<byte>) returns (c: nat, t: nat)
    requires keys.Valid() && HEADER_SIZE <= datagram.Length
    modifies datagram
    ensures datagram[..] == Unsealed(keys, old(datagram[..]))
    ensures c == HeaderCycle(keys, old(datagram[..])) && t == HeaderTime(keys, old(datagram[..]))
  {
    ghost var h := keys.header.decrypt(datagram[..][..HEADER_SIZE]);
    DecryptHeaderInPlace(keys, datagram);
    assert datagram[0..2] == datagram[..][0..2] == h[0..2];
    assert datagram[2..4] == datagram[..][2..4] == h[2..4];
    c := Read16(datagram[0..2]);
    t := Read16(datagram[2..4]);
  }

  // ----- one whole datagram, on values

  /** A receiver as its caller sees it over time: the window state and what the sink has received. */
  datatype Endpoint = Endpoint(state: State, sink: seq<bytes>)

  /** The frame number a header claims, relative to the position that reads it. */
  function Claimed(w: Window, keys: Keys, pos: nat, b: bytes): nat
    requires keys.Valid() && HEADER_SIZE <= |b|
  {
    pos + Ahead(w, pos, HeaderCycle(keys, b))
  }

  /** The two acceptance tests. */
  predicate Admits(w: Window, keys: Keys, pos: nat, timestamp: nat, b: bytes)
    requires keys.Valid() && HEADER_SIZE <= |b|
  {
    Ahead(w, pos, HeaderCycle(keys, b)) <= MAX_AHEAD && Age(timestamp, HeaderTime(keys, b)) <= MAX_AGE
  }

  /** For any bytes: if the header opens to c0 c1 t0 t1, the datagram is admitted exactly if the cycle
      c0 + 256 c1 is 0 to 256 past the position modulo a lap and the timestamp t0 + 256 t1 is 0 to
      2048 before the clock modulo the u16 turn. */
  lemma AdmitsIff(w: Window, keys: Keys, pos: nat, timestamp: nat, b: bytes, c0: byte, c1: byte, t0: byte, t1: byte)
    requires keys.Valid() && HEADER_SIZE <= |b| && keys.header.decrypt(b[..4]) == [c0, c1, t0, t1]
    ensures var c: int, t: int := c0 + 256 * (c1 as int), t0 + 256 * (t1 as int);
            && (Admits(w, keys, pos, timestamp, b) <==>
                  (c - pos) % MaxCycle(w) <= 256 && (timestamp - t) % 65536 <= 2048)
            && Claimed(w, keys, pos, b) == pos + (c - pos) % MaxCycle(w)
  {
    var c: int := c0 + 256 * (c1 as int);
    var h := keys.header.decrypt(b[..4]);
    assert h[0..2] == [c0, c1] && h[2..4] == [t0, t1];
    CycleDistance(w, c, c, pos);
  }

  /** What any DATAGRAM_SIZE bytes do to a receiver. */
  ghost function Receive(size: nat, w: Window, keys: Keys, e: Endpoint, timestamp: nat, b: bytes): Endpoint
    requires keys.Valid() && |b| == DatagramSize(size, w)
  {
    if Admits(w, keys, e.state.pos, timestamp, b) then
      var n := Claimed(w, keys, e.state.pos, b);
      Endpoint(Accept(w, e.state, n), e.sink + Delivered(size, w, keys, b, Takes(w, CaughtUp(w, e.state, n), n, w)))
    else e
  }

  /** What the sink has received after `i` rounds for datagram `n` with bytes `b`. */
  ghost function SinkLog(size: nat, w: Window, keys: Keys, b: bytes, sink: seq<bytes>,
                         s: State, n: nat, i: nat): seq<bytes>
    requires |b| == DatagramSize(size, w)
  {
    if i == 0 then sink
    else
      var before := SinkLog(size, w, keys, b, sink, s, n, i - 1);
      var j := n - (i - 1);
      if j < s.pos || Ring(w, j) in Sink(w, s, n, i - 1).flags then before
      else before + Payload(size, w, keys, b, j % w)
  }

  lemma {:induction false} SinkLogStalls(size: nat, w: Window, keys: Keys, b: bytes, sink: seq<bytes>,
                                         s: State, n: nat, i: nat, k: nat)
    requires |b| == DatagramSize(size, w) && n - i < s.pos && i <= k
    ensures SinkLog(size, w, keys, b, sink, s, n, k) == SinkLog(size, w, keys, b, sink, s, n, i)
  {
    if i < k { SinkLogStalls(size, w, keys, b, sink, s, n, i, k - 1); }
  }

  lemma Associates(a: seq<bytes>, b: seq<bytes>, c: seq<bytes>)
    ensures (a + b) + c == a + (b + c)
  {
  }

  /** What one round delivers. */
  lemma DeliveredRound(size: nat, w: Window, keys: Keys, b: bytes, s: State, n: nat, i: nat)
    requires |b| == DatagramSize(size, w) && 0 < i
    ensures var j, before := n - (i - 1), Delivered(size, w, keys, b, Takes(w, s, n, i - 1));
            Delivered(size, w, keys, b, Takes(w, s, n, i)) ==
              if j < s.pos || Ring(w, j) in Sink(w, s, n, i - 1).flags then before
              else before + Payload(size, w, keys, b, j % w)
  {
    var j := n - (i - 1);
    if s.pos <= j { DeliveredSnoc(size, w, keys, b, Takes(w, s, n, i - 1), Take(j, s.pos)); }
  }

  lemma {:induction false} SinkLogIsDelivered(size: nat, w: Window, keys: Keys, b: bytes, sink: seq<bytes>,
                                              s: State, n: nat, i: nat)
    requires |b| == DatagramSize(size, w)
    ensures SinkLog(size, w, keys, b, sink, s, n, i) == sink + Delivered(size, w, keys, b, Takes(w, s, n, i))
  {
    if i > 0 {
      SinkLogIsDelivered(size, w, keys, b, sink, s, n, i - 1);
      DeliveredRound(size, w, keys, b, s, n, i);
      var j := n - (i - 1);
      if s.pos <= j && Ring(w, j) !in Sink(w, s, n, i - 1).flags {
        Associates(sink, Delivered(size, w, keys, b, Takes(w, s, n, i - 1)), Payload(size, w, keys, b, j % w));
      }
    }
  }

  /** Frame `j` is one of those the first `i` rounds hand to the sink. */
  ghost predicate Handed(w: Window, s: State, n: nat, i: nat, j: int) {
    n - i < j <= n && s.pos <= j && Ring(w, j) !in Sink(w, s, n, n - j).flags
  }

  /** The datagram buffer `i` rounds after it was `b`: the slots of the frames handed to the sink are
      opened, once each, and everything else is as it arrived. */
  ghost predicate Rest(size: nat, w: Window, keys: Keys, b: bytes, now: bytes, s: State, n: nat, i: nat)
    requires |b| == |now| == DatagramSize(size, w)
  {
    && now[..HEADER_SIZE] == b[..HEADER_SIZE]
    && forall j: int :: n - w < j <= n ==>
         Slot(size, w, now, j % w) ==
           if Handed(w, s, n, i, j) then OpenedCell(keys, size, Slot(size, w, b, j % w)) else Slot(size, w, b, j % w)
  }

  /** Within one window no two frames share a slot. */
  lemma OwnSlot(w: Window, n: nat, i: nat, j: int)
    requires i < w && n - w < j <= n && j != n - i
    ensures j % w != (n - i) % w
  {
    ModNear(if j < n - i then j else n - i, if j < n - i then n - i else j, w);
  }

  /** Opening the slot of frame n - i does not disturb the other frames of the window, so no slot is
      decrypted twice. */
  lemma RestStep(size: nat, w: Window, keys: Keys, b: bytes, before: bytes, after: bytes, s: State, n: nat, i: nat)
    requires |b| == |before| == |after| == DatagramSize(size, w) && i < w
    requires Rest(size, w, keys, b, before, s, n, i)
    requires Opens(size, w, keys, before, after, (n - i) % w, Handed(w, s, n, i + 1, n - i))
    ensures Rest(size, w, keys, b, after, s, n, i + 1)
  {
    forall j: int | n - w < j <= n
      ensures Slot(size, w, after, j % w) ==
              if Handed(w, s, n, i + 1, j) then OpenedCell(keys, size, Slot(size, w, b, j % w))
              else Slot(size, w, b, j % w)
    {
      if j != n - i { OwnSlot(w, n, i, j); }
    }
  }

  /** One round of the sink loop on frame n - i: what the buffer, the sink and the flags become. */
  lemma RoundStep(size: nat, w: Window, keys: Keys, b: bytes, before: bytes, after: bytes,
                  s: State, sink0: seq<bytes>, n: nat, i: nat)
    requires |b| == |before| == |after| == DatagramSize(size, w) && i < w && s.pos <= n - i
    requires Rest(size, w, keys, b, before, s, n, i)
    requires Opens(size, w, keys, before, after, (n - i) % w, Ring(w, n - i) !in Sink(w, s, n, i).flags)
    ensures Sink(w, s, n, i + 1) == Mark(w, Sink(w, s, n, i), n - i)
    ensures SinkLog(size, w, keys, b, sink0, s, n, i + 1) ==
              if Ring(w, n - i) in Sink(w, s, n, i).flags then SinkLog(size, w, keys, b, sink0, s, n, i)
              else SinkLog(size, w, keys, b, sink0, s, n, i) + Payload(size, w, keys, before, (n - i) % w)
    ensures Rest(size, w, keys, b, after, s, n, i + 1)
  {
    assert Slot(size, w, before, (n - i) % w) == Slot(size, w, b, (n - i) % w);
    RestStep(size, w, keys, b, before, after, s, n, i);
  }

  /** Once a frame is behind the position the buffer is final. */
  lemma RestStalls(size: nat, w: Window, keys: Keys, b: bytes, now: bytes, s: State, n: nat, i: nat)
    requires |b| == |now| == DatagramSize(size, w) && i <= w && n - i < s.pos
    requires Rest(size, w, keys, b, now, s, n, i)
    ensures Rest(size, w, keys, b, now, s, n, w)
  {
  }

  lemma {:induction false} DeliveredStamped(size: nat, w: Window, keys: Keys, b: bytes, h: bytes, takes: seq<Take>)
    requires |b| == DatagramSize(size, w) && |h| == HEADER_SIZE
    ensures Delivered(size, w, keys, Splice(b, 0, h), takes) == Delivered(size, w, keys, b, takes)
  {
    if |takes| > 0 {
      DeliveredStamped(size, w, keys, b, h, takes[..|takes| - 1]);
      PutHeaderReads(size, w, b, h, takes[|takes| - 1].frame % w);
    }
  }

  /** The loops together, on the datagram as it arrived, are one accepted datagram. */
  lemma Received(size: nat, w: Window, keys: Keys, e: Endpoint, timestamp: nat, b: bytes)
    requires keys.Valid() && |b| == DatagramSize(size, w)
    ensures var n := Claimed(w, keys, e.state.pos, b);
            Receive(size, w, keys, e, timestamp, b) ==
              if Admits(w, keys, e.state.pos, timestamp, b) then
                Endpoint(Accept(w, e.state, n),
                         SinkLog(size, w, keys, Unsealed(keys, b), e.sink, CaughtUp(w, e.state, n), n, w))
              else e
  {
    var n := Claimed(w, keys, e.state.pos, b);
    SinkLogIsDelivered(size, w, keys, Unsealed(keys, b), e.sink, CaughtUp(w, e.state, n), n, w);
    var takes := Takes(w, CaughtUp(w, e.state, n), n, w);
    DeliveredStamped(size, w, keys, b, keys.header.decrypt(b[..HEADER_SIZE]), takes);
  }

  lemma {:induction false} DeliveredSize(size: nat, w: Window, keys: Keys, b: bytes, takes: seq<Take>)
    requires |b| == DatagramSize(size, w)
    ensures |Delivered(size, w, keys, b, takes)| <= |takes|
  {
    if |takes| > 0 { DeliveredSize(size, w, keys, b, takes[..|takes| - 1]); }
  }

  /** Any bytes at all, in any state: the position moves forward by at most the larger of the
      claimed distance and MaxBuffered, the sink gains at most a window of blocks, and a receiver
      at rest is at rest again. */
  lemma AnyBytes(size: nat, w: Window, keys: Keys, e: Endpoint, timestamp: nat, b: bytes)
    requires keys.Valid() && |b| == DatagramSize(size, w)
    requires InRing(w, e.state) && Ring(w, e.state.pos) !in e.state.flags
    ensures var r := Receive(size, w, keys, e, timestamp, b);
            && InRing(w, r.state) && Ring(w, r.state.pos) !in r.state.flags
            && e.state.pos <= r.state.pos
            && r.state.pos <= e.state.pos + Max(Ahead(w, e.state.pos, HeaderCycle(keys, b)), MaxBuffered(w))
            && e.sink <= r.sink && |r.sink| <= |e.sink| + w
  {
    if Admits(w, keys, e.state.pos, timestamp, b) {
      var n := Claimed(w, keys, e.state.pos, b);
      var c := CaughtUp(w, e.state, n);
      StepBounds(w, e.state, n);
      TakesAreLogged(w, c, n, w);
      SinkMoves(w, c, n, w);
      DeliveredSize(size, w, keys, b, Takes(w, c, n, w));
    }
  }

  /** A header cycle beyond the last cycle of a lap, which no sender writes, reads as the cycle it
      wraps to. */
  lemma HeaderWraps(w: Window, pos: nat, c: nat)
    ensures Ahead(w, pos, c) == Ahead(w, pos, c % MaxCycle(w))
  {
    ModIs(c % MaxCycle(w), MaxCycle(w), 0, c % MaxCycle(w));
    ModCongruent(c, c % MaxCycle(w), MaxCycle(w), MaxCycle(w) - CycleOf(w, pos));
  }

  class Receiver {
    const size: nat
    const w: Window
    const keys: Keys

    var cycle: nat
    var flags: array<bool>
    var sink: seq<bytes>

    /** History: the absolute position and everything processed. */
    ghost var state: State

    ghost predicate Valid()
      reads this, flags
    {
      && keys.Valid()
      && flags.Length == MaxBuffered(w)
      && cycle == CycleOf(w, state.pos)
      && state.flags == Raised(flags[..])
    }

    constructor (size: nat, w: Window, keys: Keys)
      requires ValidSize(size, w) && keys.Valid()
      ensures Valid() && state == START && sink == [] && cycle == 0 && fresh(flags)
      ensures this.size == size && this.w == w && this.keys == keys
    {
      this.size, this.w, this.keys := size, w, keys;
      cycle, sink := 0, [];
      flags := new bool[MaxBuffered(w)](i => false);
      state := START;
      new;
      ModIs(0, MaxCycle(w), 0, 0);
    }

    /** The step shared by the catch-up and advance loops. */
    method NextCycle()
      requires Valid()
      modifies this`cycle, this`state, flags
      ensures Valid() && state == Bump(w, old(state))
    {
      var index := cycle % MaxBuffered(w);
      RaisedUpdate(flags[..], index, false);
      flags[index] := false;
      CycleStep(w, state.pos);
      cycle := (cycle + 1) % MaxCycle(w);
      state := Bump(w, state);
    }

    method SkipCycles(k: nat)
      requires Valid()
      modifies this`cycle, this`state, flags
      ensures Valid() && state == CatchUp(w, old(state), k)
    {
      for i := 0 to k
        invariant Valid() && CatchUp(w, state, k - i) == CatchUp(w, old(state), k)
      {
        NextCycle();
      }
    }

    method AdvanceCycles()
      requires Valid()
      modifies this`cycle, this`state, flags
      ensures Valid() && state == Advance(w, old(state))
    {
      while true
        invariant Valid() && Advance(w, state) == Advance(w, old(state))
        decreases state.flags
      {
        var index := cycle % MaxBuffered(w);
        if !flags[index] { break; }
        NextCycle();
      }
    }

    /** The state of the sink loop after `i` rounds, begun with `s` and `sink0` on datagram `n`
        with bytes `b`. */
    ghost predicate Sinking(s: State, sink0: seq<bytes>, n: nat, b: bytes, i: nat, now: bytes)
      reads this
      requires |b| == |now| == DatagramSize(size, w)
    {
      && state == Sink(w, s, n, i)
      && sink == SinkLog(size, w, keys, b, sink0, s, n, i)
      && Rest(size, w, keys, b, now, s, n, i)
    }

    /** The sink loop. */
    method SinkWindow(datagramCycle: nat, datagram: array<byte>, ghost n: nat)
      requires Valid() && datagram.Length == DatagramSize(size, w)
      requires state.pos <= n <= state.pos + MaxBuffered(w) && datagramCycle % MaxCycle(w) == CycleOf(w, n)
      modifies this`sink, this`state, flags, datagram
      ensures Valid() && state == Sink(w, old(state), n, w)
      ensures sink == SinkLog(size, w, keys, old(datagram[..]), old(sink), old(state), n, w)
      ensures Rest(size, w, keys, old(datagram[..]), datagram[..], old(state), n, w)
    {
      ghost var s, b, sink0 := state, datagram[..], sink;
      for i := 0 to w
        invariant Valid() && Sinking(s, sink0, n, b, i, datagram[..])
      {
        var behind := VisitFrame(datagramCycle, i, datagram, s, sink0, n, b);
        if behind { break; }
      }
    }

    /** One round; `behind` if the loop is to stop instead. */
    method VisitFrame(datagramCycle: nat, i: nat, datagram: array<byte>,
                      ghost s: State, ghost sink0: seq<bytes>, ghost n: nat, ghost b: bytes) returns (behind: bool)
      requires Valid() && datagram.Length == |b| == DatagramSize(size, w) && i < w
      requires s.pos <= n <= s.pos + MaxBuffered(w) && datagramCycle % MaxCycle(w) == CycleOf(w, n)
      requires Sinking(s, sink0, n, b, i, datagram[..])
      modifies this`sink, this`state, flags, datagram
      ensures Valid()
      ensures behind ==> Sinking(s, sink0, n, b, w, datagram[..])
      ensures !behind ==> Sinking(s, sink0, n, b, i + 1, datagram[..])
    {
      var cycleI;
      cycleI, behind := Locate(datagramCycle, i, n);
      if behind {
        SinkStalls(w, s, n, i, w);
        SinkLogStalls(size, w, keys, b, sink0, s, n, i, w);
        RestStalls(size, w, keys, b, datagram[..], s, n, i);
      } else {
        ghost var before, j: nat := datagram[..], n - i;
        TakeFrame(datagram, cycleI, j);
        RoundStep(size, w, keys, b, before, datagram[..], s, sink0, n, i);
      }
    }

    /** The cycle of round `i` and whether it is behind the stored cycle. */
    method Locate(datagramCycle: nat, i: nat, ghost n: nat) returns (cycleI: nat, behind: bool)
      requires Valid() && i < w && datagramCycle % MaxCycle(w) == CycleOf(w, n)
      requires state.pos <= n <= state.pos + MaxBuffered(w)
      ensures cycleI == CycleOf(w, n - i) && (behind <==> n - i < state.pos)
    {
      BehindTest(w, datagramCycle, n, state.pos, i);
      var lifted: nat := datagramCycle + MaxCycle(w) - i;
      cycleI := lifted % MaxCycle(w);
      var distance: nat := cycleI + MaxCycle(w) - cycle;
      behind := distance % MaxCycle(w) > MaxBuffered(w);
    }

    method RaiseFlag(destinationIndex: nat, ghost j: nat)
      requires Valid() && destinationIndex == Ring(w, j)
      modifies this`state, flags
      ensures Valid() && state == Mark(w, old(state), j)
    {
      RaisedUpdate(flags[..], destinationIndex, true);
      flags[destinationIndex] := true;
      state := Mark(w, state, j);
    }

    /** Hand frame `j` to the sink unless its flag is up, and raise the flag. */
    method TakeFrame(datagram: array<byte>, cycleI: nat, ghost j: nat)
      requires Valid() && datagram.Length == DatagramSize(size, w) && cycleI == CycleOf(w, j)
      modifies this`sink, this`state, flags, datagram
      ensures Valid() && state == Mark(w, old(state), j)
      ensures sink == if Ring(w, j) in old(state.flags) then old(sink)
                      else old(sink) + Payload(size, w, keys, old(datagram[..]), j % w)
      ensures Opens(size, w, keys, old(datagram[..]), datagram[..], j % w, Ring(w, j) !in old(state.flags))
    {
      SlotOfCycle(w, j);
      var sourceIndex := cycleI % w;
      var destinationIndex := cycleI % MaxBuffered(w);
      if !flags[destinationIndex] {
        var blocks := OpenSlotInPlace(size, w, keys, datagram, sourceIndex);
        sink := sink + blocks;
        RaiseFlag(destinationIndex, j);
      }
    }

    /** Open the header and apply the two tests. */
    method Admit(timestamp: nat, datagram: array<byte>) returns (ok: bool, datagramCycle: nat, cycleDiff: nat)
      requires Valid() && datagram.Length == DatagramSize(size, w) && timestamp < 65536
      modifies datagram
      ensures Valid() && datagram[..] == Unsealed(keys, old(datagram[..]))
      ensures ok <==> Admits(w, keys, state.pos, timestamp, old(datagram[..]))
      ensures ok <==> cycleDiff <= 256 && (timestamp - HeaderTime(keys, old(datagram[..]))) % 65536 <= 2048
      ensures datagramCycle == HeaderCycle(keys, old(datagram[..]))
      ensures cycleDiff == Ahead(w, state.pos, datagramCycle)
    {
      var datagramTimestamp;
      datagramCycle, datagramTimestamp := OpenHeader(keys, datagram);

      var lifted: nat := datagramCycle + MaxCycle(w) - cycle;
      cycleDiff := lifted % MaxCycle(w);
      var timestampDiff := (timestamp - datagramTimestamp) % 65536;

      ok := !(cycleDiff > MAX_AHEAD || timestampDiff > MAX_AGE);
    }

    /** Any bytes: the state and the sink are those of `Receive`; the buffer is left with its header
        opened and, if the datagram was admitted, the slots handed to the sink opened. */
    method HandleDatagram(timestamp: nat, datagram: array<byte>)
      requires Valid() && datagram.Length == DatagramSize(size, w) && timestamp < 65536
      modifies this, flags, datagram
      ensures Valid() && flags == old(flags)
      ensures Endpoint(state, sink) ==
              Receive(size, w, keys, old(Endpoint(state, sink)), timestamp, old(datagram[..]))
      ensures var b := Unsealed(keys, old(datagram[..]));
              if Admits(w, keys, old(state.pos), timestamp, old(datagram[..])) then
                var n := Claimed(w, keys, old(state.pos), old(datagram[..]));
                Rest(size, w, keys, b, datagram[..], CaughtUp(w, old(state), n), n, w)
              else datagram[..] == b
    {
      Received(size, w, keys, Endpoint(state, sink), timestamp, datagram[..]);
      var ok, datagramCycle, cycleDiff := Admit(timestamp, datagram);
      if !ok { return; }
      Process(datagramCycle, cycleDiff, datagram);
    }

    /** An accepted datagram: catch up, sink, advance. */
    method Process(datagramCycle: nat, cycleDiff: nat, datagram: array<byte>)
      requires Valid() && datagram.Length == DatagramSize(size, w)
      requires cycleDiff == Ahead(w, state.pos, datagramCycle)
      modifies this, flags, datagram
      ensures Valid() && flags == old(flags)
      ensures var n := old(state.pos) + cycleDiff;
              Processed(CaughtUp(w, old(state), n), old(sink), n, old(datagram[..]), datagram[..])
    {
      ghost var n, b, sink0 := state.pos + cycleDiff, datagram[..], sink;
      AheadIsFrame(w, state.pos, datagramCycle);
      CatchUpTo(cycleDiff);
      assert datagram[..] == b;
      SinkAndAdvance(datagramCycle, datagram, n);
    }

    /** The state after the sink and advance loops, begun with `s` and `sink0` on datagram `n` with
        bytes `b`. */
    ghost predicate Processed(s: State, sink0: seq<bytes>, n: nat, b: bytes, now: bytes)
      reads this
      requires |b| == |now| == DatagramSize(size, w)
    {
      && state == Advance(w, Sink(w, s, n, w))
      && sink == SinkLog(size, w, keys, b, sink0, s, n, w)
      && Rest(size, w, keys, b, now, s, n, w)
    }

    method SinkAndAdvance(datagramCycle: nat, datagram: array<byte>, ghost n: nat)
      requires Valid() && datagram.Length == DatagramSize(size, w)
      requires state.pos <= n <= state.pos + MaxBuffered(w) && datagramCycle % MaxCycle(w) == CycleOf(w, n)
      modifies this, flags, datagram
      ensures Valid() && flags == old(flags)
      ensures Processed(old(state), old(sink), n, old(datagram[..]), datagram[..])
    {
      SinkWindow(datagramCycle, datagram, n);
      AdvanceCycles();
    }

    method CatchUpTo(cycleDiff: nat)
      requires Valid()
      modifies this`cycle, this`state, flags
      ensures Valid() && state == CaughtUp(w, old(state), old(state.pos) + cycleDiff)
      ensures state.pos <= old(state.pos) + cycleDiff <= state.pos + MaxBuffered(w)
    {
      if cycleDiff > MaxBuffered(w) {
        CatchUpPos(w, state, cycleDiff - MaxBuffered(w));
        SkipCycles(cycleDiff - MaxBuffered(w));
      }
    }
  }
}
