/** The sender (crates/longboy/src/proto/sender.rs). */
module Sender {
  import opened Constants
  import opened Cipher
  import opened Datagram

  /** Something in the window after polling `p`. */
  ghost predicate Busy(w: Window, frames: seq<Frame>, p: Frame) {
    p.Some? || exists j :: |frames| - w < j < |frames| && Content(frames, j).Some?
  }

  /** The emission rule: a poll adds a frame, and emits a datagram, only while the window is not
      entirely empty. */
  ghost function Poll(w: Window, frames: seq<Frame>, p: Frame): seq<Frame> {
    if Busy(w, frames, p) then frames + [p] else frames
  }

  /** The flags and slots hold the frames last-w+1 .. last-1. */
  ghost predicate Holds(size: nat, w: Window, keys: Keys, frames: seq<Frame>, flags: seq<bool>, b: bytes)
    requires |b| == DatagramSize(size, w) && |flags| == w
  {
    forall j: int :: |frames| - w < j < |frames| ==>
      flags[j % w] == Content(frames, j).Some?
      && Slot(size, w, b, j % w) == Cell(keys, size, Content(frames, j))
  }

  method Any(flags: array<bool>) returns (any: bool)
    ensures any <==> exists k :: 0 <= k < flags.Length && flags[k]
  {
    for k := 0 to flags.Length
      invariant forall i :: 0 <= i < k ==> !flags[i]
    {
      if flags[k] { return true; }
    }
    return false;
  }

  /** The rotating write: after storing the newest frame the buffer carries the whole window. */
  lemma RotatingWrite(size: nat, w: Window, keys: Keys, frames: seq<Frame>, flags: seq<bool>, b: bytes, p: Frame)
    requires |b| == DatagramSize(size, w) && |flags| == w && Holds(size, w, keys, frames, flags, b)
    requires |Cell(keys, size, p)| == size
    ensures var k := |frames| % w;
            var b' := PutSlot(size, w, b, k, Cell(keys, size, p));
            var flags' := flags[k := p.Some?];
            && Carries(size, w, keys, frames + [p], |frames|, b')
            && (forall j: int :: |frames| - w < j <= |frames| ==> flags'[j % w] == Content(frames + [p], j).Some?)
  {
    var n, k := |frames|, |frames| % w;
    var b' := PutSlot(size, w, b, k, Cell(keys, size, p));
    var flags' := flags[k := p.Some?];
    forall j: int | n - w < j <= n
      ensures flags'[j % w] == Content(frames + [p], j).Some?
      ensures Slot(size, w, b', j % w) == Cell(keys, size, Content(frames + [p], j))
    {
      PutSlotReads(size, w, b, k, Cell(keys, size, p), j % w);
      if j < n {
        ModNear(j, n, w);
        assert Content(frames + [p], j) == Content(frames, j);
      }
    }
  }

  /** Every slot belongs to exactly one frame of the window. */
  lemma SlotHasFrame(w: Window, n: int, k: nat)
    requires k < w
    ensures n - w < n - (n - k) % w <= n && (n - (n - k) % w) % w == k
  {
    var d := (n - k) % w;
    assert n - d == ((n - k) / w) * w + k;
    ModIs(n - d, w, (n - k) / w, k);
  }

  lemma AnyIsBusy(w: Window, frames: seq<Frame>, flags: seq<bool>, p: Frame)
    requires |flags| == w
    requires forall j: int :: |frames| - w < j <= |frames| ==> flags[j % w] == Content(frames + [p], j).Some?
    ensures (exists k :: 0 <= k < |flags| && flags[k]) <==> Busy(w, frames, p)
  {
    var n := |frames|;
    if k :| 0 <= k < |flags| && flags[k] {
      SlotHasFrame(w, n, k);
      var j := n - (n - k) % w;
      assert Content(frames + [p], j).Some?;
      if j < n { assert Content(frames, j).Some?; }
    }
    if Busy(w, frames, p) {
      var j :| n - w < j <= n && Content(frames + [p], j).Some? by {
        if p.Some? {
          assert Content(frames + [p], n).Some?;
        } else {
          var j :| n - w < j < n && Content(frames, j).Some?;
          assert Content(frames + [p], j).Some?;
        }
      }
      assert flags[j % w];
    }
  }

  lemma QuietSlots(size: nat, w: Window, keys: Keys, frames: seq<Frame>, n: int, b: bytes)
    requires |b| == DatagramSize(size, w) && Carries(size, w, keys, frames, n, b)
    requires forall j: int :: n - w < j <= n ==> Content(frames, j).None?
    ensures forall k :: 0 <= k < w ==> Slot(size, w, b, k) == Zeros(size)
  {
    forall k | 0 <= k < w ensures Slot(size, w, b, k) == Zeros(size) {
      SlotHasFrame(w, n, k);
      assert Content(frames, n - (n - k) % w).None?;
    }
  }

  /** A poll that finds the whole window empty leaves the history as it was. */
  lemma Unsent(size: nat, w: Window, keys: Keys, frames: seq<Frame>, flags: seq<bool>, b: bytes)
    requires |b| == DatagramSize(size, w) && |flags| == w
    requires Carries(size, w, keys, frames + [None], |frames|, b)
    requires forall j: int :: |frames| - w < j <= |frames| ==> flags[j % w] == Content(frames + [None], j).Some?
    requires !Busy(w, frames, None)
    ensures Holds(size, w, keys, frames, flags, b)
    ensures forall k :: 0 <= k < w ==> Slot(size, w, b, k) == Zeros(size)
  {
    forall j: int | |frames| - w < j <= |frames| ensures Content(frames + [None], j) == Content(frames, j) == None {
      if 0 <= j < |frames| { assert Content(frames, j).None?; }
    }
    QuietSlots(size, w, keys, frames + [None], |frames|, b);
  }

  lemma HoldsStamped(size: nat, w: Window, keys: Keys, frames: seq<Frame>, flags: seq<bool>, b: bytes, h: bytes)
    requires |b| == DatagramSize(size, w) && |flags| == w && |h| == HEADER_SIZE
    requires Holds(size, w, keys, frames, flags, b)
    ensures Holds(size, w, keys, frames, flags, Splice(b, 0, h))
  {
    forall j: int | |frames| - w < j < |frames|
      ensures Slot(size, w, Splice(b, 0, h), j % w) == Cell(keys, size, Content(frames, j))
    {
      PutHeaderReads(size, w, b, h, j % w);
      assert Content(frames, j) == Content(frames, j);
    }
  }

  method StampHeader(keys: Keys, buffer: array<byte>, cycle: nat, timestamp: nat)
    requires keys.Valid() && HEADER_SIZE <= buffer.Length && cycle < 65536 && timestamp < 65536
    modifies buffer
    ensures |SealHeader(keys, cycle, timestamp)| == HEADER_SIZE
    ensures buffer[..] == Splice(old(buffer[..]), 0, SealHeader(keys, cycle, timestamp))
  {
    Store(buffer, 0, Write16(cycle));
    Store(buffer, 2, Write16(timestamp));
    assert buffer[..][..HEADER_SIZE] == Write16(cycle) + Write16(timestamp);
    EncryptHeaderInPlace(keys, buffer);
  }

  /** What the source leaves in its slot, sealed; or zeros if it reported nothing. */
  method StoreFrame(size: nat, w: Window, keys: Keys, buffer: array<byte>, index: nat, ready: bool, polled: bytes)
    requires keys.Valid() && buffer.Length == DatagramSize(size, w) && index < w && |polled| == size
    modifies buffer
    ensures |Cell(keys, size, if ready then Some(polled) else None)| == size
    ensures buffer[..] ==
            PutSlot(size, w, old(buffer[..]), index, Cell(keys, size, if ready then Some(polled) else None))
  {
    SlotFits(size, w, index);
    var start := SlotStart(size, index);
    SlotRoundTrip(keys, polled);
    SpliceOver(buffer[..], start, polled, if ready then EncryptSlot(keys, polled) else Zeros(size));
    Store(buffer, start, polled);
    if ready {
      EncryptSlotInPlace(keys, buffer, start, start + size);
    } else {
      Store(buffer, start, Zeros(size));
    }
  }

  /** The buffer after one poll: header stamped, newest slot written. */
  ghost function Polled(size: nat, w: Window, keys: Keys, n: nat, b: bytes, p: Frame, timestamp: nat): bytes
    requires |b| == DatagramSize(size, w) && timestamp < 65536
    requires |SealHeader(keys, CycleOf(w, n), timestamp)| == HEADER_SIZE && |Cell(keys, size, p)| == size
  {
    PutSlot(size, w, Splice(b, 0, SealHeader(keys, CycleOf(w, n), timestamp)), n % w, Cell(keys, size, p))
  }

  lemma PollStep(size: nat, w: Window, keys: Keys, frames: seq<Frame>, flags: seq<bool>, b: bytes,
                 p: Frame, timestamp: nat)
    requires keys.Valid() && timestamp < 65536 && (p.Some? ==> |p.value| == size)
    requires |b| == DatagramSize(size, w) && |flags| == w && Holds(size, w, keys, frames, flags, b)
    ensures |SealHeader(keys, CycleOf(w, |frames|), timestamp)| == HEADER_SIZE && |Cell(keys, size, p)| == size
    ensures var b' := Polled(size, w, keys, |frames|, b, p, timestamp);
            var flags' := flags[|frames| % w := p.Some?];
            && ((exists k :: 0 <= k < |flags'| && flags'[k]) <==> Busy(w, frames, p))
            && Holds(size, w, keys, Poll(w, frames, p), flags', b')
            && IsDatagram(size, w, keys, frames + [p], |frames|, timestamp, b')
            && (!Busy(w, frames, p) ==> forall k :: 0 <= k < w ==> !flags'[k] && Slot(size, w, b', k) == Zeros(size))
  {
    HeaderRoundTrip(keys, CycleOf(w, |frames|), timestamp);
    if p.Some? { SlotRoundTrip(keys, p.value); }
    var h := SealHeader(keys, CycleOf(w, |frames|), timestamp);
    var stamped := Splice(b, 0, h);
    HoldsStamped(size, w, keys, frames, flags, b, h);
    RotatingWrite(size, w, keys, frames, flags, stamped, p);
    PutSlotReads(size, w, stamped, |frames| % w, Cell(keys, size, p), 0);
    var flags' := flags[|frames| % w := p.Some?];
    AnyIsBusy(w, frames, flags', p);
    if !Busy(w, frames, p) {
      Unsent(size, w, keys, frames, flags', PutSlot(size, w, stamped, |frames| % w, Cell(keys, size, p)));
    }
  }

  class Sender {
    const size: nat
    const w: Window
    const keys: Keys

    var cycle: nat
    var flags: array<bool>
    var buffer: array<byte>

    /** History: frame n of every datagram n emitted so far. */
    ghost var frames: seq<Frame>

    ghost predicate Valid()
      reads this, flags, buffer
    {
      && keys.Valid()
      && flags.Length == w && buffer.Length == DatagramSize(size, w)
      && Blocks(size, frames)
      && cycle == CycleOf(w, |frames|)
      && Holds(size, w, keys, frames, flags[..], buffer[..])
    }

    constructor (size: nat, w: Window, keys: Keys)
      requires ValidSize(size, w) && keys.Valid()
      ensures Valid() && frames == [] && fresh(flags) && fresh(buffer)
      ensures this.size == size && this.w == w && this.keys == keys
    {
      this.size, this.w, this.keys := size, w, keys;
      cycle := 0;
      flags := new bool[w](i => false);
      buffer := new byte[DatagramSize(size, w)](i => 0);
      frames := [];
      new;
      ModIs(0, MaxCycle(w), 0, 0);
      forall k: nat | k < w ensures Slot(size, w, buffer[..], k) == Zeros(size) {
        SlotFits(size, w, k);
      }
    }

    /** One poll: `polled` is what the source left in the slot it was given, and whether it
        reported a frame. */
    method PollDatagram(timestamp: nat, ready: bool, polled: bytes) returns (r: Option<bytes>)
      requires Valid() && timestamp < 65536 && |polled| == size
      modifies this`cycle, this`frames, flags, buffer
      ensures Valid()
      ensures var p := if ready then Some(polled) else None;
              && frames == Poll(w, old(frames), p)
              && (r.Some? <==> Busy(w, old(frames), p))
      ensures r.Some? ==> IsDatagram(size, w, keys, frames, |old(frames)|, timestamp, r.value)
      ensures r.None? ==> forall k :: 0 <= k < w ==> !flags[k] && Slot(size, w, buffer[..], k) == Zeros(size)
    {
      var any := WriteDatagram(timestamp, ready, polled);
      NextCycle(any, if ready then Some(polled) else None);
      r := if any then Some(buffer[..]) else None;
    }

    /** The cycle moves on if the datagram is transmitted. */
    method NextCycle(any: bool, ghost p: Frame)
      requires cycle == CycleOf(w, |frames|) && (any <==> Busy(w, frames, p))
      modifies this`cycle, this`frames
      ensures frames == Poll(w, old(frames), p) && cycle == CycleOf(w, |frames|)
    {
      CycleStep(w, |frames|);
      frames := Poll(w, frames, p);
      if any { cycle := (cycle + 1) % MaxCycle(w); }
    }

    /** Everything up to the decision to transmit. */
    method WriteDatagram(timestamp: nat, ready: bool, polled: bytes) returns (any: bool)
      requires Valid() && timestamp < 65536 && |polled| == size
      modifies flags, buffer
      ensures var p := if ready then Some(polled) else None;
              && (any <==> Busy(w, frames, p))
              && Holds(size, w, keys, Poll(w, frames, p), flags[..], buffer[..])
              && IsDatagram(size, w, keys, frames + [p], |frames|, timestamp, buffer[..])
              && (!any ==> forall k :: 0 <= k < w ==> !flags[k] && Slot(size, w, buffer[..], k) == Zeros(size))
    {
      ghost var p := if ready then Some(polled) else None;
      PollStep(size, w, keys, frames, flags[..], buffer[..], p, timestamp);
      ghost var written := Polled(size, w, keys, |frames|, buffer[..], p, timestamp);
      ghost var raised := flags[..][|frames| % w := ready];

      StampHeader(keys, buffer, cycle, timestamp);

      var index := cycle % w;
      SlotOfCycle(w, |frames|);
      StoreFrame(size, w, keys, buffer, index, ready, polled);
      flags[index] := ready;
      any := Any(flags);
      assert buffer[..] == written && flags[..] == raised;
    }
  }
}
