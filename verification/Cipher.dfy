/** The header and slot codec (crates/longboy/src/proto/cipher.rs) over an abstract pair of
    mutually inverse block maps. */
module Cipher {
  import opened Constants

  type byte = x: int | 0 <= x < 256
  type bytes = seq<byte>

  const SLOT_BLOCK := 8

  /** One block cipher under one key. */
  datatype BlockCipher = BlockCipher(encrypt: bytes -> bytes, decrypt: bytes -> bytes) {
    ghost predicate Valid(width: nat) {
      && (forall b: bytes :: |b| == width ==> |encrypt(b)| == width && decrypt(encrypt(b)) == b)
      && (forall b: bytes :: |b| == width ==> |decrypt(b)| == width && encrypt(decrypt(b)) == b)
    }
  }

  /** The session's two ciphers: 4-byte blocks for the header, 8-byte blocks for the slots. */
  datatype Keys = Keys(header: BlockCipher, slot: BlockCipher) {
    ghost predicate Valid() {
      header.Valid(HEADER_SIZE) && slot.Valid(SLOT_BLOCK)
    }
  }

  /** `map` applied to every whole 8-byte chunk; a shorter remainder is left as it is. */
  function Chunkwise(map8: bytes -> bytes, s: bytes): bytes {
    if |s| < SLOT_BLOCK then s else map8(s[..SLOT_BLOCK]) + Chunkwise(map8, s[SLOT_BLOCK..])
  }

  function EncryptSlot(keys: Keys, s: bytes): bytes {
    Chunkwise(keys.slot.encrypt, s)
  }

  function DecryptSlot(keys: Keys, s: bytes): bytes {
    Chunkwise(keys.slot.decrypt, s)
  }

  ghost predicate Inverse(f: bytes -> bytes, g: bytes -> bytes) {
    forall b: bytes :: |b| == SLOT_BLOCK ==> |f(b)| == SLOT_BLOCK && g(f(b)) == b
  }

  lemma {:induction false} ChunkwiseInverse(f: bytes -> bytes, g: bytes -> bytes, s: bytes)
    requires Inverse(f, g)
    ensures |Chunkwise(f, s)| == |s| && Chunkwise(g, Chunkwise(f, s)) == s
  {
    if SLOT_BLOCK <= |s| {
      ChunkwiseInverse(f, g, s[SLOT_BLOCK..]);
      var c := Chunkwise(f, s);
      assert c[..SLOT_BLOCK] == f(s[..SLOT_BLOCK]) && c[SLOT_BLOCK..] == Chunkwise(f, s[SLOT_BLOCK..]);
      assert s[..SLOT_BLOCK] + s[SLOT_BLOCK..] == s;
    }
  }

  lemma {:induction false} ChunkwiseFrom(f: bytes -> bytes, s: bytes, q: nat)
    requires forall b: bytes :: |b| == SLOT_BLOCK ==> |f(b)| == SLOT_BLOCK
    requires q * SLOT_BLOCK <= |s| < q * SLOT_BLOCK + SLOT_BLOCK
    ensures |Chunkwise(f, s)| == |s|
    ensures Chunkwise(f, s)[q * SLOT_BLOCK..] == s[q * SLOT_BLOCK..]
  {
    if 0 < q {
      var rest, k := s[SLOT_BLOCK..], (q - 1) * SLOT_BLOCK;
      ChunkwiseFrom(f, rest, q - 1);
      assert s[k + SLOT_BLOCK..] == rest[k..];
      assert Chunkwise(f, s)[k + SLOT_BLOCK..] == Chunkwise(f, rest)[k..];
    }
  }

  lemma ChunkwiseTail(f: bytes -> bytes, s: bytes)
    requires forall b: bytes :: |b| == SLOT_BLOCK ==> |f(b)| == SLOT_BLOCK
    ensures |Chunkwise(f, s)| == |s|
    ensures Chunkwise(f, s)[|s| - |s| % SLOT_BLOCK..] == s[|s| - |s| % SLOT_BLOCK..]
  {
    ChunkwiseFrom(f, s, |s| / SLOT_BLOCK);
  }

  /** Slot round trip for every length, both ways, with the tail beyond the last whole chunk
      untouched. */
  lemma SlotRoundTrip(keys: Keys, s: bytes)
    requires keys.Valid()
    ensures |EncryptSlot(keys, s)| == |s| == |DecryptSlot(keys, s)|
    ensures DecryptSlot(keys, EncryptSlot(keys, s)) == s && EncryptSlot(keys, DecryptSlot(keys, s)) == s
    ensures EncryptSlot(keys, s)[|s| - |s| % SLOT_BLOCK..] == s[|s| - |s| % SLOT_BLOCK..]
  {
    ChunkwiseInverse(keys.slot.encrypt, keys.slot.decrypt, s);
    ChunkwiseInverse(keys.slot.decrypt, keys.slot.encrypt, s);
    ChunkwiseTail(keys.slot.encrypt, s);
  }

  /** Every whole chunk is mapped on its own. */
  lemma {:induction false} ChunkwiseAt(f: bytes -> bytes, s: bytes, k: nat)
    requires forall b: bytes :: |b| == SLOT_BLOCK ==> |f(b)| == SLOT_BLOCK
    requires 8 * k + 8 <= |s|
    ensures |Chunkwise(f, s)| == |s| && Chunkwise(f, s)[8 * k..8 * k + 8] == f(s[8 * k..8 * k + 8])
  {
    ChunkwiseTail(f, s);
    var rest, c := s[SLOT_BLOCK..], Chunkwise(f, s);
    assert c[..8] == f(s[..8]) && c[8..] == Chunkwise(f, rest);
    if k > 0 {
      var m := 8 * (k - 1);
      ChunkwiseAt(f, rest, k - 1);
      assert rest[m..m + 8] == s[m + 8..m + 16];
      assert c[8..][m..m + 8] == c[m + 8..m + 16];
    }
  }

  /** What a slot is in terms of the block cipher: chunk k of the result is the cipher's image of
      chunk k, for both directions and every whole chunk. */
  lemma SlotChunks(keys: Keys, s: bytes, k: nat)
    requires keys.Valid() && 8 * k + 8 <= |s|
    ensures |EncryptSlot(keys, s)| == |s| == |DecryptSlot(keys, s)|
    ensures EncryptSlot(keys, s)[8 * k..8 * k + 8] == keys.slot.encrypt(s[8 * k..8 * k + 8])
    ensures DecryptSlot(keys, s)[8 * k..8 * k + 8] == keys.slot.decrypt(s[8 * k..8 * k + 8])
  {
    ChunkwiseAt(keys.slot.encrypt, s, k);
    ChunkwiseAt(keys.slot.decrypt, s, k);
  }

  /** `s` is `v` with every whole chunk mapped by `f` and the rest as it is. */
  ghost predicate Image(f: bytes -> bytes, v: bytes, s: bytes) {
    && |s| == |v| && s[|v| - |v| % 8..] == v[|v| - |v| % 8..]
    && forall k: nat :: 8 * k + 8 <= |v| ==> s[8 * k..8 * k + 8] == f(v[8 * k..8 * k + 8])
  }

  lemma SlotImages(keys: Keys, s: bytes)
    requires keys.Valid()
    ensures Image(keys.slot.encrypt, s, EncryptSlot(keys, s)) && Image(keys.slot.decrypt, s, DecryptSlot(keys, s))
  {
    ChunkwiseTail(keys.slot.encrypt, s);
    ChunkwiseTail(keys.slot.decrypt, s);
    forall k: nat | 8 * k + 8 <= |s|
      ensures EncryptSlot(keys, s)[8 * k..8 * k + 8] == keys.slot.encrypt(s[8 * k..8 * k + 8])
      ensures DecryptSlot(keys, s)[8 * k..8 * k + 8] == keys.slot.decrypt(s[8 * k..8 * k + 8])
    {
      SlotChunks(keys, s, k);
    }
  }

  // ----- header

  /** Little-endian u16. */
  function Write16(x: nat): (r: bytes)
    requires x < 65536
    ensures |r| == 2
  {
    [x % 256, x / 256]
  }

  function Read16(b: bytes): (x: nat)
    requires |b| == 2
    ensures x < 65536
  {
    var hi: int := b[1];
    b[0] + 256 * hi
  }

  function SealHeader(keys: Keys, cycle: nat, timestamp: nat): bytes
    requires cycle < 65536 && timestamp < 65536
  {
    keys.header.encrypt(Write16(cycle) + Write16(timestamp))
  }

  /** Header round trip for every u16 cycle and timestamp. */
  lemma HeaderRoundTrip(keys: Keys, cycle: nat, timestamp: nat)
    requires keys.Valid() && cycle < 65536 && timestamp < 65536
    ensures var h := keys.header.decrypt(SealHeader(keys, cycle, timestamp));
            |SealHeader(keys, cycle, timestamp)| == |h| == HEADER_SIZE
            && Read16(h[0..2]) == cycle && Read16(h[2..4]) == timestamp
  {
  }

  /** The layout under the seal: cycle first, then timestamp, low byte first in both. */
  lemma HeaderBytes(keys: Keys, cycle: nat, timestamp: nat)
    requires keys.Valid() && cycle < 65536 && timestamp < 65536
    ensures var plain: bytes := [cycle % 256, cycle / 256, timestamp % 256, timestamp / 256];
            && SealHeader(keys, cycle, timestamp) == keys.header.encrypt(plain)
            && keys.header.decrypt(SealHeader(keys, cycle, timestamp)) == plain
  {
    var plain: bytes := [cycle % 256, cycle / 256, timestamp % 256, timestamp / 256];
    assert Write16(cycle) + Write16(timestamp) == plain;
  }

  // ----- in place

  /** `b` with `s` written at `at`. */
  function Splice(b: bytes, at: nat, s: bytes): (r: bytes)
    requires at + |s| <= |b|
    ensures |r| == |b|
  {
    b[..at] + s + b[at + |s|..]
  }

  lemma SpliceOver(b: bytes, at: nat, s: bytes, t: bytes)
    requires at + |s| <= |b| && |t| == |s|
    ensures Splice(Splice(b, at, s), at, t) == Splice(b, at, t) && Splice(b, at, s)[at..at + |s|] == s
  {
  }

  method Store(a: array<byte>, at: nat, s: bytes)
    requires at + |s| <= a.Length
    modifies a
    ensures a[..] == Splice(old(a[..]), at, s)
  {
    forall k | 0 <= k < |s| {
      a[at + k] := s[k];
    }
  }

  /** `now` is `was` with the chunks of was[start..i] mapped; was[start..end] is being rewritten. */
  ghost predicate Rewriting(map8: bytes -> bytes, was: bytes, now: bytes, start: nat, i: nat, end: nat) {
    && start <= i <= end <= |was| == |now|
    && now[..start] == was[..start] && now[i..] == was[i..]
    && now[start..i] + Chunkwise(map8, was[i..end]) == Chunkwise(map8, was[start..end])
  }

  lemma RewritingStep(map8: bytes -> bytes, was: bytes, now: bytes, start: nat, i: nat, end: nat)
    requires Rewriting(map8, was, now, start, i, end) && i + SLOT_BLOCK <= end
    requires |map8(now[i..i + SLOT_BLOCK])| == SLOT_BLOCK
    ensures Rewriting(map8, was, Splice(now, i, map8(now[i..i + SLOT_BLOCK])), start, i + SLOT_BLOCK, end)
  {
    var chunk := map8(now[i..i + SLOT_BLOCK]);
    var next := Splice(now, i, chunk);
    assert now[i..i + SLOT_BLOCK] == now[i..][..SLOT_BLOCK] == was[i..end][..SLOT_BLOCK];
    assert was[i..end][SLOT_BLOCK..] == was[i + SLOT_BLOCK..end];
    assert next[start..i + SLOT_BLOCK] == now[start..i] + chunk;
    assert next[i + SLOT_BLOCK..] == now[i..][SLOT_BLOCK..] == was[i..][SLOT_BLOCK..];
  }

  lemma RewritingDone(map8: bytes -> bytes, was: bytes, now: bytes, start: nat, i: nat, end: nat)
    requires Rewriting(map8, was, now, start, i, end) && end < i + SLOT_BLOCK
    ensures |Chunkwise(map8, was[start..end])| == end - start
    ensures now == Splice(was, start, Chunkwise(map8, was[start..end]))
  {
  }

  /** One chunk of the rewrite. */
  method RewriteChunk(map8: bytes -> bytes, a: array<byte>, ghost was: bytes, ghost start: nat, i: nat, ghost end: nat)
    requires Rewriting(map8, was, a[..], start, i, end) && i + SLOT_BLOCK <= end
    requires |map8(a[..][i..i + SLOT_BLOCK])| == SLOT_BLOCK
    modifies a
    ensures Rewriting(map8, was, a[..], start, i + SLOT_BLOCK, end)
  {
    RewritingStep(map8, was, a[..], start, i, end);
    assert a[i..i + SLOT_BLOCK] == a[..][i..i + SLOT_BLOCK];
    Store(a, i, map8(a[i..i + SLOT_BLOCK]));
  }

  /** Run `map8` over every whole chunk of a[start..end], in place. */
  method ChunkwiseInPlace(map8: bytes -> bytes, a: array<byte>, start: nat, end: nat)
    requires start <= end <= a.Length
    requires forall b: bytes :: |b| == SLOT_BLOCK ==> |map8(b)| == SLOT_BLOCK
    modifies a
    ensures |Chunkwise(map8, old(a[..])[start..end])| == end - start
    ensures a[..] == Splice(old(a[..]), start, Chunkwise(map8, old(a[..])[start..end]))
  {
    var i := start;
    ghost var was := a[..];
    while i + SLOT_BLOCK <= end
      invariant Rewriting(map8, was, a[..], start, i, end)
    {
      RewriteChunk(map8, a, was, start, i, end);
      i := i + SLOT_BLOCK;
    }
    RewritingDone(map8, was, a[..], start, i, end);
  }

  method EncryptSlotInPlace(keys: Keys, a: array<byte>, start: nat, end: nat)
    requires keys.Valid() && start <= end <= a.Length
    modifies a
    ensures |EncryptSlot(keys, old(a[..])[start..end])| == end - start
    ensures a[..] == Splice(old(a[..]), start, EncryptSlot(keys, old(a[..])[start..end]))
  {
    ChunkwiseInPlace(keys.slot.encrypt, a, start, end);
  }

  method DecryptSlotInPlace(keys: Keys, a: array<byte>, start: nat, end: nat)
    requires keys.Valid() && start <= end <= a.Length
    modifies a
    ensures |DecryptSlot(keys, old(a[..])[start..end])| == end - start
    ensures a[..] == Splice(old(a[..]), start, DecryptSlot(keys, old(a[..])[start..end]))
  {
    ChunkwiseInPlace(keys.slot.decrypt, a, start, end);
  }

  /** The two header methods: one 4-byte block at the front of the buffer. */
  method EncryptHeaderInPlace(keys: Keys, a: array<byte>)
    requires keys.Valid() && HEADER_SIZE <= a.Length
    modifies a
    ensures |keys.header.encrypt(old(a[..])[..HEADER_SIZE])| == HEADER_SIZE
    ensures a[..] == Splice(old(a[..]), 0, keys.header.encrypt(old(a[..])[..HEADER_SIZE]))
  {
    assert a[..HEADER_SIZE] == a[..][..HEADER_SIZE];
    Store(a, 0, keys.header.encrypt(a[..HEADER_SIZE]));
  }

  method DecryptHeaderInPlace(keys: Keys, a: array<byte>)
    requires keys.Valid() && HEADER_SIZE <= a.Length
    modifies a
    ensures |keys.header.decrypt(old(a[..])[..HEADER_SIZE])| == HEADER_SIZE
    ensures a[..] == Splice(old(a[..]), 0, keys.header.decrypt(old(a[..])[..HEADER_SIZE]))
  {
    assert a[..HEADER_SIZE] == a[..][..HEADER_SIZE];
    Store(a, 0, keys.header.decrypt(a[..HEADER_SIZE]));
  }
}
