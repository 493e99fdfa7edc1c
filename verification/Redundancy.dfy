/** What the emission rule gives over whole runs of polls: how often a frame travels and when the
    sender falls silent. */
module Redundancy {
  import opened Cipher
  import opened Constants
  import opened Datagram
  import opened Sender

  /** The history after a run of polls of a new sender. */
  ghost function Polls(w: Window, start: seq<Frame>, polls: seq<Frame>): seq<Frame> {
    if |polls| == 0 then start else Poll(w, Polls(w, start, polls[..|polls| - 1]), polls[|polls| - 1])
  }

  /** Number of the last payload frame, or -w if there is none: the sender stays busy until w
      datagrams carried it. */
  function LastPayload(w: Window, frames: seq<Frame>): int {
    if |frames| == 0 then 0 - w
    else if frames[|frames| - 1].Some? then |frames| - 1
    else LastPayload(w, frames[..|frames| - 1])
  }

  lemma {:induction false} LastPayloadIsLast(w: Window, frames: seq<Frame>)
    ensures LastPayload(w, frames) < |frames|
    ensures 0 <= LastPayload(w, frames) ==> Content(frames, LastPayload(w, frames)).Some?
    ensures LastPayload(w, frames) < 0 ==> LastPayload(w, frames) == 0 - w
    ensures forall j :: LastPayload(w, frames) < j ==> Content(frames, j).None?
  {
    if |frames| > 0 && frames[|frames| - 1].None? {
      var before := frames[..|frames| - 1];
      LastPayloadIsLast(w, before);
      forall j | LastPayload(w, frames) < j ensures Content(frames, j).None? {
        assert Content(before, j).None?;
      }
    }
  }

  lemma BusyIffRecent(w: Window, frames: seq<Frame>, p: Frame)
    ensures Busy(w, frames, p) <==> p.Some? || |frames| < LastPayload(w, frames) + w
  {
    LastPayloadIsLast(w, frames);
    if |frames| < LastPayload(w, frames) + w { assert Content(frames, LastPayload(w, frames)).Some?; }
  }

  /** Nothing is emitted without a payload in its window. */
  lemma {:induction false} EveryDatagramHasPayload(w: Window, polls: seq<Frame>, n: nat)
    requires n < |Polls(w, [], polls)|
    ensures exists j: nat :: n - w < j <= n && Content(Polls(w, [], polls), j).Some?
  {
    var frames := Polls(w, [], polls);
    var before := Polls(w, [], polls[..|polls| - 1]);
    var p := polls[|polls| - 1];
    if n < |before| {
      EveryDatagramHasPayload(w, polls[..|polls| - 1], n);
      var j: nat :| n - w < j <= n && Content(before, j).Some?;
      assert Content(frames, j) == Content(before, j);
    } else {
      BusyIffRecent(w, before, p);
      LastPayloadIsLast(w, before);
      if p.Some? {
        assert Content(frames, n).Some?;
      } else {
        assert Content(frames, LastPayload(w, before)) == Content(before, LastPayload(w, before));
      }
    }
  }

  /** Nothing stops a payload: whatever the source does next, every poll emits until frame p has
      travelled in w datagrams. */
  lemma {:induction false} PayloadTravels(w: Window, frames: seq<Frame>, more: seq<Frame>, p: nat)
    requires Content(frames, p).Some?
    ensures frames <= Polls(w, frames, more)
    ensures |Polls(w, frames, more)| >= (if |frames| + |more| < p + w then |frames| + |more| else p + w)
  {
    if |more| > 0 {
      PayloadTravels(w, frames, more[..|more| - 1], p);
      var before := Polls(w, frames, more[..|more| - 1]);
      BusyIffRecent(w, before, more[|more| - 1]);
      assert Content(before, p).Some?;
      LastPayloadIsLast(w, before);
    }
  }

  /** In every datagram the slot of frame p holds frame p exactly when the datagram is one of
      p .. p+w-1, and otherwise another frame. */
  lemma CarriedExactly(size: nat, w: Window, keys: Keys, frames: seq<Frame>, n: nat, timestamp: nat, b: bytes, p: nat)
    requires timestamp < 65536 && IsDatagram(size, w, keys, frames, n, timestamp, b)
    ensures exists j: int ::
              && n - w < j <= n && j % w == p % w
              && Slot(size, w, b, p % w) == Cell(keys, size, Content(frames, j))
              && (j == p <==> p <= n < p + w)
  {
    SlotHasFrame(w, n, p % w);
    var j := n - (n - p % w) % w;
    assert Slot(size, w, b, j % w) == Cell(keys, size, Content(frames, j));
    if p <= n < p + w && j != p {
      ModNear(if j < p then j else p, if j < p then p else j, w);
    }
  }

  function Silence(k: nat): seq<Frame>
    decreases k
  {
    if k == 0 then [] else Silence(k - 1) + [None]
  }

  /** How many more datagrams the last payload still has to travel in. */
  function Left(w: Window, frames: seq<Frame>): nat {
    if LastPayload(w, frames) + w <= |frames| then 0 else LastPayload(w, frames) + w - |frames|
  }

  lemma NothingNew(w: Window, frames: seq<Frame>)
    ensures LastPayload(w, frames + [None]) == LastPayload(w, frames)
  {
  }

  lemma SilenceGrows(frames: seq<Frame>, k: nat)
    ensures frames + Silence(k) + [None] == frames + Silence(k + 1)
  {
  }

  lemma {:induction false} SilenceSize(k: nat)
    ensures |Silence(k)| == k
  {
    if 0 < k { SilenceSize(k - 1); }
  }

  lemma {:induction false} SilenceKeepsLast(w: Window, frames: seq<Frame>, k: nat)
    ensures LastPayload(w, frames + Silence(k)) == LastPayload(w, frames)
  {
    if k == 0 {
      assert frames + Silence(0) == frames;
    } else {
      SilenceKeepsLast(w, frames, k - 1);
      SilenceGrows(frames, k - 1);
      NothingNew(w, frames + Silence(k - 1));
    }
  }

  /** A silent source: the sender emits until its last payload has travelled w times, and not one
      datagram more, however long the silence. */
  lemma {:induction false} SilenceEmits(w: Window, frames: seq<Frame>, k: nat)
    ensures Polls(w, frames, Silence(k)) == frames + Silence(Least(k, Left(w, frames)))
  {
    if k == 0 {
      assert frames + Silence(0) == frames;
    } else {
      SilenceEmits(w, frames, k - 1);
      SilenceSize(k);
      assert Silence(k)[..|Silence(k)| - 1] == Silence(k - 1);
      OneMoreSilent(w, frames, k - 1);
    }
  }

  function Least(a: nat, b: nat): nat { if a < b then a else b }

  lemma OneMoreSilent(w: Window, frames: seq<Frame>, k: nat)
    ensures Poll(w, frames + Silence(Least(k, Left(w, frames))), None) ==
            frames + Silence(Least(k + 1, Left(w, frames)))
  {
    var e := Least(k, Left(w, frames));
    SilenceSize(e);
    SilenceKeepsLast(w, frames, e);
    SilenceGrows(frames, e);
    BusyIffRecent(w, frames + Silence(e), None);
  }
}
