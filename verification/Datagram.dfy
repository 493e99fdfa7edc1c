/** The layout of a datagram: a sealed 4-byte header, then WINDOW_SIZE slots of SIZE bytes. */
module Datagram {
  import opened Constants
  import opened Cipher

  datatype Option<+T> = None | Some(value: T)

  function SlotStart(size: nat, k: nat): (r: nat)
    ensures r >= HEADER_SIZE
  {
    HEADER_SIZE + size * k
  }

  lemma SlotFits(size: nat, w: Window, k: nat)
    requires k < w
    ensures SlotStart(size, k) + size <= DatagramSize(size, w)
  {
    assert size * k + size == size * (k + 1);
    assert size * (k + 1) <= size * w;
  }

  lemma SlotsApart(size: nat, k: nat, l: nat)
    requires k < l
    ensures SlotStart(size, k) + size <= SlotStart(size, l)
  {
    assert size * k + size == size * (k + 1);
    assert size * (k + 1) <= size * l;
  }

  function Slot(size: nat, w: Window, b: bytes, k: nat): (r: bytes)
    requires k < w && |b| == DatagramSize(size, w)
    ensures |r| == size
  {
    SlotFits(size, w, k);
    b[SlotStart(size, k)..SlotStart(size, k) + size]
  }

  function PutSlot(size: nat, w: Window, b: bytes, k: nat, s: bytes): (r: bytes)
    requires k < w && |b| == DatagramSize(size, w) && |s| == size
    ensures |r| == |b|
  {
    SlotFits(size, w, k);
    Splice(b, SlotStart(size, k), s)
  }

  /** The first `k` slots, one after another. */
  function Slots(size: nat, w: Window, b: bytes, k: nat): bytes
    requires k <= w && |b| == DatagramSize(size, w)
  {
    if k == 0 then [] else Slots(size, w, b, k - 1) + Slot(size, w, b, k - 1)
  }

  lemma SlotIsAt(size: nat, w: Window, b: bytes, k: nat, m: nat)
    requires k < w && |b| == DatagramSize(size, w) && m == size * k
    ensures 4 + m + size <= |b| && Slot(size, w, b, k) == b[4 + m..4 + m + size]
  {
    SlotFits(size, w, k);
  }

  /** Where slot `k` is. */
  lemma SlotAtByte(size: nat, w: Window, b: bytes, k: nat)
    requires k < w && |b| == DatagramSize(size, w)
    ensures 4 + size * k + size <= |b| && Slot(size, w, b, k) == b[4 + size * k..][..size]
  {
    SlotIsAt(size, w, b, k, size * k);
  }

  /** The slots are what follows the four header bytes, SIZE bytes each and in order. */
  lemma {:induction false} SlotsCover(size: nat, w: Window, b: bytes, k: nat)
    requires k <= w && |b| == DatagramSize(size, w)
    ensures 4 + size * k <= |b| && Slots(size, w, b, k) == b[4..4 + size * k]
  {
    if k > 0 {
      SlotsCover(size, w, b, k - 1);
      var m := size * (k - 1);
      SlotIsAt(size, w, b, k - 1, m);
      assert size * k == m + size;
      SliceGrows(b, 4, 4 + m, 4 + m + size);
    }
  }

  lemma SliceGrows(b: bytes, i: nat, j: nat, k: nat)
    requires i <= j <= k <= |b|
    ensures b[i..j] + b[j..k] == b[i..k]
  {
  }

  /** A datagram is its four header bytes and then its slots. */
  lemma Layout(size: nat, w: Window, b: bytes)
    requires |b| == DatagramSize(size, w)
    ensures |b| == 4 + size * w && b == b[..4] + Slots(size, w, b, w)
  {
    SlotsCover(size, w, b, w);
  }

  /** Writing one slot changes that slot and nothing else. */
  lemma PutSlotReads(size: nat, w: Window, b: bytes, k: nat, s: bytes, l: nat)
    requires k < w && l < w && |b| == DatagramSize(size, w) && |s| == size
    ensures Slot(size, w, PutSlot(size, w, b, k, s), l) == if k == l then s else Slot(size, w, b, l)
    ensures PutSlot(size, w, b, k, s)[..HEADER_SIZE] == b[..HEADER_SIZE]
  {
    SlotFits(size, w, k);
    SlotFits(size, w, l);
    if k < l { SlotsApart(size, k, l); } else if l < k { SlotsApart(size, l, k); }
  }

  /** Writing the header leaves every slot. */
  lemma PutHeaderReads(size: nat, w: Window, b: bytes, h: bytes, l: nat)
    requires l < w && |b| == DatagramSize(size, w) && |h| == HEADER_SIZE
    ensures Slot(size, w, Splice(b, 0, h), l) == Slot(size, w, b, l)
  {
    SlotFits(size, w, l);
  }

  /** The absent frame. */
  function Zeros(size: nat): (r: bytes)
    ensures |r| == size
  {
    seq(size, i => 0)
  }

  lemma ZerosAreZero(size: nat, b: bytes)
    ensures b == Zeros(size) <==> |b| == size && forall i :: 0 <= i < size ==> b[i] == 0
  {
  }

  // ----- frames

  /** One poll of the source: a full block, or nothing. */
  type Frame = Option<bytes>

  ghost predicate Blocks(size: nat, frames: seq<Frame>) {
    forall i :: 0 <= i < |frames| && frames[i].Some? ==> |frames[i].value| == size
  }

  /** Frame `j`; before the first frame there is nothing. */
  function Content(frames: seq<Frame>, j: int): Frame {
    if 0 <= j < |frames| then frames[j] else None
  }

  /** How a frame travels. */
  function Cell(keys: Keys, size: nat, f: Frame): bytes {
    if f.Some? then EncryptSlot(keys, f.value) else Zeros(size)
  }

  /** `b` carries, in slot j mod w, each of the frames last-w+1 .. last. */
  ghost predicate Carries(size: nat, w: Window, keys: Keys, frames: seq<Frame>, last: int, b: bytes)
    requires |b| == DatagramSize(size, w)
  {
    forall j: int :: last - w < j <= last ==> Slot(size, w, b, j % w) == Cell(keys, size, Content(frames, j))
  }

  /** `b` is datagram `n` of the history, stamped `timestamp`. */
  ghost predicate IsDatagram(size: nat, w: Window, keys: Keys, frames: seq<Frame>, n: nat,
                             timestamp: nat, b: bytes)
    requires timestamp < 65536
  {
    && |b| == DatagramSize(size, w)
    && b[..HEADER_SIZE] == SealHeader(keys, CycleOf(w, n), timestamp)
    && Carries(size, w, keys, frames, n, b)
  }

  /** The header on the wire: it opens to the cycle of `n` and the timestamp, low bytes first. */
  lemma HeaderOnTheWire(size: nat, w: Window, keys: Keys, frames: seq<Frame>, n: nat, timestamp: nat, b: bytes)
    requires keys.Valid() && timestamp < 65536 && IsDatagram(size, w, keys, frames, n, timestamp, b)
    ensures var c := n % MaxCycle(w);
            keys.header.decrypt(b[..4]) == [c % 256, c / 256, timestamp % 256, timestamp / 256]
  {
    HeaderBytes(keys, CycleOf(w, n), timestamp);
  }

  /** How a frame looks on the wire: all zeros if the source had nothing, and otherwise the cipher's image
      of every whole chunk of the block and the rest of the block as it is. */
  ghost predicate Wire(keys: Keys, f: Frame, s: bytes) {
    match f
    case None => forall i :: 0 <= i < |s| ==> s[i] == 0
    case Some(v) => Image(keys.slot.encrypt, v, s)
  }

  lemma CellIsWire(keys: Keys, size: nat, f: Frame)
    requires keys.Valid()
    ensures Wire(keys, f, Cell(keys, size, f))
  {
    if f.Some? { SlotImages(keys, f.value); }
  }

  /** In every datagram p .. p+w-1 frame p is on the wire in slot p mod w. */
  lemma FrameOnTheWire(size: nat, w: Window, keys: Keys, frames: seq<Frame>, n: nat, timestamp: nat, b: bytes, p: nat)
    requires keys.Valid() && timestamp < 65536 && IsDatagram(size, w, keys, frames, n, timestamp, b)
    requires p <= n < p + w && p < |frames|
    ensures Wire(keys, frames[p], Slot(size, w, b, p % w))
  {
    CellIsWire(keys, size, frames[p]);
    assert Content(frames, p) == frames[p];
  }
}
