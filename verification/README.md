# Longboy in Dafny

A model of Longboy's sliding-window datagram protocol and of the server's session tables, with
proofs of what they keep over whole runs.

A **sender** numbers its datagrams by a cycle modulo MAX_CYCLE. Each datagram carries the last
WINDOW_SIZE frames of its source in a rotating slot buffer, and the sender falls silent when every
slot is empty. A **receiver** keeps only a cycle and a ring of MAX_BUFFERED booleans; from these it
decides what is stale, what is too far ahead, which frames reach the sink and how far to advance.
Datagrams are lost, repeated (each is sent on three sockets) and reordered on the way.

The proofs live on absolute frame numbers that never wrap (`SlidingWindow`): the stored cycle is
the position modulo MAX_CYCLE, the stored booleans are the set of raised flags, and every loop of
the receiver is a sequence of two primitive moves, `Bump` (clear the flag here and go past it) and
`Mark` (process a frame and raise its flag). `SlidingWindow.AcceptKeeps` is the induction principle:
what both moves keep, a whole datagram keeps. The classes `Sender.Sender` and `Receiver.Receiver`
work on arrays, in place, modulo MAX_CYCLE and MAX_BUFFERED like the program, and are proved to
refine this model for any bytes whatsoever; `Link` joins the two sides, clock and channel included.

The server side models the events a `Server` puts on each task's queue, the tables each task keeps
(arena, ids, addresses), and the broker that hands out session ids and player indices. A panic of
the program (`unwrap`, `expect`, `assert!`) is the result `None`, so "never panics" is a theorem.

| file | content |
|---|---|
| `Constants.dfy` | MAX_CYCLE, MAX_BUFFERED and exactly when their two rings alias |
| `Cipher.dfy`, `Datagram.dfy` | chunk-wise codec over an abstract invertible block map; layout |
| `Sender.dfy`, `Redundancy.dfy` | the sender, and how often and how long frames travel |
| `SlidingWindow.dfy`, `Receiver.dfy` | the receiver on absolute numbers, and as a class over arrays |
| `Position.dfy`, `AtMostTwice.dfy`, `Duplicates.dfy`, `Burst.dfy` | what every run keeps; mirrored copies; bursty loss |
| `Coverage.dfy`, `Wrap.dfy`, `Stabilise.dfy` | any order of arrival; the cycle wrap; recovery after loss |
| `Link.dfy`, `Sinks.dfy` | sender, clock, channel and receiver end to end; what is in the sink |
| `Sessions.dfy`, `Server.dfy` | a task's session tables; the server and its replicated event log |
| `History.dfy`, `Routing.dfy` | what every task holds after any run; which address reaches which session |
| `Broker.dfy`, `Connections.dfy` | the broker and the accept path; which connections are sessions after any run |

## What the code does not do

Some properties one would expect hold only under a condition; each is proved together with its
exact condition. `SafeSpan` is how many consecutive frames never share a flag: MAX_BUFFERED where it
divides MAX_CYCLE ("aligned", `Constants.AlignedIff`), otherwise the window, or 6 or 7 for the
windows below 4. A datagram is *near* if it is less than SafeSpan ahead of the position, or less than
MAX_BUFFERED ahead in the same lap.

- A mirrored copy of a near datagram is always ignored. Away from an unaligned wrap it is ignored if
  and only if the first copy was *less* than MAX_BUFFERED ahead: at exactly MAX_BUFFERED (the guards
  at receiver.rs:101 and :124 use `>`) the frame shares the flag of the receiver's own position, the
  flag is consumed at once, and the copy reaches the sink again (`Duplicates.DuplicateIsNoOpIff`,
  `Duplicates.DeliveredTwice`). At an unaligned wrap it already fails SafeSpan ahead, for every
  window up to 256 (`Duplicates.DuplicatesIgnoredIff`). With a window of 3, after frames 0 to 65527,
  two copies of 65535 process its frame twice. Never more than twice: `AtMostTwice.AtMostTwiceEver`.
- Nothing is skipped and nothing is repeated, for datagrams within the buffering range, if and only
  if the rings are aligned, or no frame has reached the wrap, or the window exceeds 256:
  `Wrap.FaithfulIff`. It fails for every window below 4, hence for the windows the programs use: the
  first datagram of a new lap can raise the flag of the frame the receiver is still waiting for. For
  near datagrams it holds on every lap (`Coverage.RunIsCoverage`), and from a synchronised receiver
  near is exactly what is needed (`Wrap.TruthfulIff`).
- After any run, once a newest datagram is accepted, an undisturbed stream synchronises the receiver,
  on every lap, if and only if 2 <= W <= 127 or W > 256: `Stabilise.RecoversIff`. With W = 1 it stays
  MAX_BUFFERED - 1 behind the newest datagram. With 129 <= W <= 256 the buffering range exceeds the
  256 cycles of acceptance, and a lost frame can stop the position so that nothing newer is accepted;
  with W = 128 a wrap does the same.
- No datagram is accepted more than 256 past the position, so after that many consecutive losses
  nothing is, for any window, for the rest of the lap: `Stabilise.GapIff`. Acceptance is modulo
  MAX_CYCLE (`Link.AcceptanceModulo`): a stalled receiver takes the datagrams that come one lap later
  for the frames it is still waiting for (`Link.StallEnds`).
- A burst of fewer than W lost datagrams is bridged, but never beyond the 256 cycles of
  acceptance: `Burst.ReachIsExact`.
- A block that encrypts to zeros reads as an absent frame: `Link.InvisibleIff`.
- A client that heartbeats from an address another session (or mirroring) already uses breaks the
  address map as an inverse, never its safety: `Sessions.BeatExactIff`, `Sessions.BeatSound`. If no
  address is claimed twice the map is exact at every point of every run: `Routing.RoutesExact`.
- The player number a sink stamps is a byte; it is unique if and only if there are at most 256
  players: `Connections.NumbersDistinctIff`.

## Model

| member | source | states |
|---|---|---|
| Constants.MaxCycle | crates/longboy/src/proto/constants.rs:11 | MAX_CYCLE leaves less than a window unused below 65535 |
| Constants.MaxCycleIsMultiple | crates/longboy/src/proto/constants.rs:11 | MAX_CYCLE is the largest multiple of the window a u16 can hold |
| Constants.AlignedIff | crates/longboy/src/proto/constants.rs:11-17 | MAX_BUFFERED divides MAX_CYCLE exactly for windows of at least 4 with an even quotient |
| Constants.DistinctFlagsIff | crates/longboy/src/proto/constants.rs:11-17 | k consecutive frames never share a flag, on any lap, if and only if k is at most SafeSpan |
| Constants.WindowIsDistinct | crates/longboy/src/proto/constants.rs:11-17 | a window of consecutive frames never shares a flag, for every window size |
| Constants.FullRingIff | crates/longboy/src/proto/constants.rs:11-17 | MAX_BUFFERED cycles from c use different flags if and only if the rings are aligned or the wrap is not reached |
| Constants.ClearIff | crates/longboy/src/proto/constants.rs:11-17 | the frames from lo to n use different flags if and only if n is less than SafeSpan past lo, or less than MAX_BUFFERED past it in the same lap |
| Constants.FlatIff | crates/longboy/src/proto/constants.rs:11-17 | over a stretch of frames flags follow absolute frame numbers if and only if the rings are aligned or the stretch lies in one lap or within SafeSpan |
| Constants.NoTriple | crates/longboy/src/proto/constants.rs:11-17 | no three frames within MAX_BUFFERED share a flag, for any window and across any wrap |
| Constants.AliasAt | crates/longboy/src/proto/constants.rs:11-17 | the last SafeSpan frames of a lap share their flags with the frames SafeSpan later |
| Constants.SlotOfCycle | crates/longboy/src/proto/receiver.rs:134 | slot rotation is continuous at the wrap: cycle and absolute frame name the same slot |
| Constants.CycleDistance | crates/longboy/src/proto/receiver.rs:71 | the wrapped cycle difference is the true distance modulo a lap |
| Cipher.SlotRoundTrip | crates/longboy/src/proto/cipher.rs:36-46 | for every length slot decryption undoes encryption and the reverse, and the bytes beyond the last whole chunk are untouched |
| Cipher.SlotChunks | crates/longboy/src/proto/cipher.rs:36-46 | bytes 8k to 8k+7 of an encrypted (decrypted) slot are the block cipher's image of bytes 8k to 8k+7, for every whole chunk |
| Cipher.HeaderRoundTrip | crates/longboy/src/proto/cipher.rs:26-34 | a sealed header opens to the cycle and timestamp written, for every u16 pair |
| Cipher.HeaderBytes | crates/longboy/src/proto/sender.rs:51-54 | under the seal: cycle then timestamp, low byte first in both |
| Cipher.ChunkwiseInPlace | crates/longboy/src/proto/cipher.rs:36-46 | the in-place rewrite changes exactly the slot's bytes, to the chunk-wise image |
| Cipher.EncryptSlotInPlace | crates/longboy/src/proto/cipher.rs:36-40 | encrypts one slot of a buffer in place, nothing else changes |
| Cipher.DecryptSlotInPlace | crates/longboy/src/proto/cipher.rs:42-46 | decrypts one slot of a buffer in place, nothing else changes |
| Cipher.EncryptHeaderInPlace | crates/longboy/src/proto/cipher.rs:26-29 | encrypts the first four bytes in place |
| Cipher.DecryptHeaderInPlace | crates/longboy/src/proto/cipher.rs:31-34 | decrypts the first four bytes in place |
| Datagram.PutSlotReads | crates/longboy/src/proto/sender.rs:57-59 | writing one slot changes no other slot and not the header |
| Datagram.Layout | crates/longboy/src/proto/sender.rs:57-59 | a datagram is four header bytes and then WINDOW_SIZE slots of SIZE bytes, in order |
| Datagram.SlotAtByte | crates/longboy/src/proto/sender.rs:57-59 | slot k is the SIZE bytes from byte 4 + SIZE k |
| Datagram.HeaderOnTheWire | crates/longboy/src/proto/sender.rs:51-54 | the header of datagram n opens to n mod MAX_CYCLE and the timestamp, low bytes first |
| Datagram.FrameOnTheWire | crates/longboy/src/proto/sender.rs:57-75 | in datagrams p to p+W-1 slot p mod W is zeros if the source had nothing, and otherwise the block with every whole 8-byte chunk encrypted |
| Datagram.ZerosAreZero | crates/longboy/src/proto/receiver.rs:141 | the absent frame is SIZE bytes of 0 and nothing else is |
| Sender.Any | crates/longboy/src/proto/sender.rs:78 | true if and only if some flag is set |
| Sender.RotatingWrite | crates/longboy/src/proto/sender.rs:57-75 | writing frame n into slot n mod W leaves the whole window n-W+1 .. n in the buffer |
| Sender.AnyIsBusy | crates/longboy/src/proto/sender.rs:78-86 | some flag is set if and only if some frame of the window has a payload |
| Sender.PollStep | crates/longboy/src/proto/sender.rs:50-86 | one poll keeps the window invariant over all laps, builds datagram n, and is all zeros when nothing is sent |
| Sender.StampHeader | crates/longboy/src/proto/sender.rs:51-54 | the header bytes become the sealed cycle and timestamp |
| Sender.StoreFrame | crates/longboy/src/proto/sender.rs:57-75 | the slot becomes the encrypted block, or zeros if the source had nothing |
| Sender.Sender.constructor | crates/longboy/src/proto/sender.rs:27-37 | a new sender is valid with an empty history |
| Sender.Sender.PollDatagram | crates/longboy/src/proto/sender.rs:44-87 | emits datagram n of the history if and only if the window is not empty; otherwise the history is unchanged and all slots are zero |
| Redundancy.EveryDatagramHasPayload | crates/longboy/src/proto/sender.rs:77-86 | over every run, each emitted datagram has a payload frame in its window |
| Redundancy.PayloadTravels | crates/longboy/src/proto/sender.rs:77-86 | whatever the source does next, every poll emits until a payload has travelled in W datagrams |
| Redundancy.CarriedExactly | crates/longboy/src/proto/sender.rs:57-59 | the slot of frame p holds frame p in exactly the datagrams p .. p+W-1 |
| Redundancy.SilenceEmits | crates/longboy/src/proto/sender.rs:77-86 | a silent source yields exactly the remaining datagrams of its last payload and then nothing |
| SlidingWindow.Advance | crates/longboy/src/proto/receiver.rs:153-165 | the advance loop terminates and stops where the flag is down |
| SlidingWindow.AcceptKeeps | crates/longboy/src/proto/receiver.rs:101-165 | what both primitive moves keep, catch-up, sink loop and advance loop keep |
| Position.WitnessedAccept | crates/longboy/src/proto/receiver.rs:101-165 | every raised flag keeps a witness frame between the position and the newest number, across wraps |
| Position.PositionBound | crates/longboy/src/proto/receiver.rs:101-165 | over every run the position is at most MAX_BUFFERED behind the newest accepted number and at most one past it |
| Position.AdvanceMoves | crates/longboy/src/proto/receiver.rs:153-165 | advancing clears exactly one flag per step |
| Position.StepBounds | crates/longboy/src/proto/receiver.rs:101-165 | one datagram moves the position by at most max(distance, MAX_BUFFERED) and processes at most W frames |
| AtMostTwice.RunSound | crates/longboy/src/proto/receiver.rs:101-165 | over every run, window and wrap each processed frame is behind, or flagged, or lost its flag to an earlier frame sharing it, and repeats are loose-then-firm |
| AtMostTwice.LooseIsFar | crates/longboy/src/proto/receiver.rs:101-165 | a frame can be undone only if processed at least SafeSpan ahead; away from an unaligned wrap, exactly if processed MAX_BUFFERED ahead |
| AtMostTwice.AtMostTwiceEver | crates/longboy/src/proto/receiver.rs:101-165 | for every window, run and number of wraps no frame is processed more than twice; twice only if the first time was at least SafeSpan ahead, and exactly MAX_BUFFERED ahead where no unaligned wrap lay between |
| Duplicates.DuplicateIffUnaliased | crates/longboy/src/proto/receiver.rs:101-165 | in any state, on any lap, a second copy changes nothing if and only if the first did not pass a frame whose flag is that of a frame of its window still ahead |
| Duplicates.DuplicateIgnored | crates/longboy/src/proto/receiver.rs:124-165 | so a copy of a datagram less than SafeSpan ahead is ignored on every lap and across every wrap, and one less than MAX_BUFFERED ahead within its lap |
| Duplicates.DuplicateIsNoOpIff | crates/longboy/src/proto/receiver.rs:124-149 | where no unaligned wrap lies between, a copy is ignored if and only if the first was less than MAX_BUFFERED ahead |
| Duplicates.DuplicatesIgnoredIff | crates/longboy/src/proto/receiver.rs:124-165 | over every run, copies of datagrams less than MAX_BUFFERED ahead are ignored if and only if the rings are aligned or the window exceeds 256 |
| Duplicates.FrameTakenTwice | crates/longboy/src/proto/receiver.rs:101-165 | a datagram at least MAX_BUFFERED ahead has its newest frame processed by both copies |
| Duplicates.DeliveredTwice | crates/longboy/src/proto/receiver.rs:101-165 | a run that does it, for every window up to 128: datagram MAX_BUFFERED arrives first, twice, and its frame is processed exactly twice |
| Duplicates.DuplicateAtWrap | crates/longboy/src/proto/receiver.rs:124-165 | from a synchronised receiver SafeSpan before an unaligned wrap, the first frame of the next lap is processed by both copies |
| Duplicates.WrapTakenTwice | crates/longboy/src/proto/receiver.rs:124-165 | a run that meets it, for every unaligned window up to 256 |
| Burst.BurstStep | crates/longboy/src/proto/receiver.rs:117-165 | from a synchronised state a datagram within reach is processed completely, latest frame first, and leaves the receiver synchronised |
| Burst.ReachIsExact | crates/longboy/src/proto/receiver.rs:87-165 | the receiver stays synchronised if and only if the datagram is within a window and 256 cycles |
| Burst.ExactlyOnce | crates/longboy/src/proto/receiver.rs:71-165 | under bursty loss with any late or mirrored copies, for every window and any wraps, the position is exact after every arrival, all flags are down and the log is the ideal log |
| Burst.IdealLogIsExact | crates/longboy/src/proto/receiver.rs:117-149 | the ideal log holds every frame up to the newest exactly once and nothing else |
| Coverage.GoodAccept | crates/longboy/src/proto/receiver.rs:117-165 | while no two frames ahead share a flag, an accepted datagram keeps flags, position and processed frames in agreement, on any lap |
| Coverage.AcceptTakes | crates/longboy/src/proto/receiver.rs:117-149 | it adds exactly the frames of its window |
| Coverage.RunIsCoverage | crates/longboy/src/proto/receiver.rs:116-165 | for every window and any number of wraps, if each arrival is late or near (ClearIff) and at most 256 ahead: the processed frames are exactly the covered ones, each once, and the position is the least uncovered frame |
| Coverage.OrderIndependence | crates/longboy/src/proto/receiver.rs:116-165 | under the same per-arrival condition two arrival orders of the same datagrams end in the same position and flags and have processed every frame equally often |
| Wrap.TruthfulIff | crates/longboy/src/proto/receiver.rs:117-165 | from a synchronised receiver, after a datagram within MAX_BUFFERED and 256, flags and position agree with the processed frames if and only if the datagram is near |
| Wrap.WrapSkips | crates/longboy/src/proto/receiver.rs:134-165 | across an unaligned wrap the first datagram of a lap makes the receiver pass a frame it never processed |
| Wrap.WideWindowIsFaithful | crates/longboy/src/proto/receiver.rs:87-165 | a window above 256 processes every frame behind its position exactly once, over every run and wrap |
| Wrap.FaithfulIff | crates/longboy/src/proto/receiver.rs:101-165 | delivery within the buffer of frames below a bound skips nothing and repeats nothing if and only if the rings are aligned, the bound is at most one lap, or the window exceeds 256 |
| Stabilise.AcceptAdvances | crates/longboy/src/proto/receiver.rs:101-165 | after a newest datagram the position is strictly within MAX_BUFFERED of it, where flags follow frame numbers |
| Stabilise.SelfStabilisation | crates/longboy/src/proto/receiver.rs:101-165 | on any lap, from any state with witnessed flags, a newest datagram and MAX_BUFFERED-W+1 more in order synchronise the receiver exactly, unless an unaligned wrap comes between |
| Stabilise.StreamIsAccepted | crates/longboy/src/proto/receiver.rs:87-165 | with at most 127 frames a window a stream in order is accepted throughout, across every wrap |
| Stabilise.Recovery | crates/longboy/src/proto/receiver.rs:87-165 | on every lap and across every wrap, with 2 to 127 or more than 256 frames a window: after any run, once a newest datagram is accepted a bounded number more in order synchronise the receiver |
| Stabilise.GapIff | crates/longboy/src/proto/receiver.rs:87-165 | for those windows, after any run, the receiver recovers with the next stream, within a lap, if and only if the stream begins at most 256 past the position |
| Stabilise.NarrowWindowLags | crates/longboy/src/proto/receiver.rs:101-165 | with a window of one, MAX_BUFFERED-1 behind, the lag never shrinks for the rest of the lap |
| Stabilise.StallHolds | crates/longboy/src/proto/receiver.rs:87-165 | with at least 128 frames a window, a lost frame whose flag none of the next 256 frames shares is not passed, within a lap, by datagrams that do not carry it |
| Stabilise.MediumWindowStalls | crates/longboy/src/proto/receiver.rs:87-165 | with 129 to 256 frames a window: datagram 256 is accepted first, and nothing later in the lap that does not carry frame 0 moves the position |
| Stabilise.WrapStalls | crates/longboy/src/proto/receiver.rs:87-165 | with 128 frames a window the same happens at the first wrap, after a perfect run to 65024 |
| Stabilise.DroppedWhileFar | crates/longboy/src/proto/receiver.rs:87-92 | datagrams more than 256 ahead and less than a lap ahead change nothing, however many |
| Stabilise.WideWindowInStep | crates/longboy/src/proto/receiver.rs:87-165 | with a window above 256 the receiver is synchronised after every run |
| Stabilise.RecoversIff | crates/longboy/src/proto/receiver.rs:87-165 | recovery after every run and every accepted newest datagram, on every lap, holds if and only if the window has 2 to 127 or more than 256 frames, for every length of the stream from the bound up to 60000 |
| Receiver.AheadIsFrame | crates/longboy/src/proto/receiver.rs:71 | any header cycle is the cycle of the frame that far ahead of the position |
| Receiver.HeaderWraps | crates/longboy/src/proto/receiver.rs:67-71 | a header cycle beyond MAX_CYCLE reads as the cycle it wraps to |
| Receiver.AdmitsIff | crates/longboy/src/proto/receiver.rs:65-92 | for any bytes: if the header opens to c0 c1 t0 t1, the datagram is admitted if and only if (c0 + 256 c1 - position) mod MAX_CYCLE is at most 256 and (clock - t0 - 256 t1) mod 65536 is at most 2048 |
| Receiver.BehindTest | crates/longboy/src/proto/receiver.rs:119-132 | the sink loop's modular test stops exactly at frames behind the position |
| Receiver.RestStep | crates/longboy/src/proto/receiver.rs:137-149 | opening one slot in place leaves every other slot of the window and the header as they were, so no slot is decrypted twice |
| Receiver.SlotOffTheWire | crates/longboy/src/proto/receiver.rs:139-147 | an all-zero slot hands over nothing, any other the block with every whole 8-byte chunk decrypted |
| Receiver.OpenSlotInPlace | crates/longboy/src/proto/receiver.rs:139-147 | hands over the decrypted block of a nonzero slot, which is what it leaves in the slot, and changes neither the header nor another slot |
| Receiver.OpenHeader | crates/longboy/src/proto/receiver.rs:65-68 | opens the header in place and reads cycle and timestamp |
| Receiver.AnyBytes | crates/longboy/src/proto/receiver.rs:65-165 | for any bytes: bounded progress, at most W sink calls, rest is restored |
| Receiver.Receiver.constructor | crates/longboy/src/proto/receiver.rs:29-38 | a new receiver is valid at the start state with an empty sink |
| Receiver.Receiver.SkipCycles | crates/longboy/src/proto/receiver.rs:108-113 | the catch-up loop is k bumps |
| Receiver.Receiver.SinkWindow | crates/longboy/src/proto/receiver.rs:117-150 | the sink loop with its early break refines the window model's, delivers each taken slot as it arrived, and leaves exactly the taken slots opened |
| Receiver.Receiver.AdvanceCycles | crates/longboy/src/proto/receiver.rs:153-165 | the advance loop refines the window model's |
| Receiver.Receiver.Admit | crates/longboy/src/proto/receiver.rs:65-92 | computes both wrapping differences without underflow and applies the two drop tests, 256 and 2048 |
| Receiver.Receiver.Process | crates/longboy/src/proto/receiver.rs:101-165 | an accepted datagram on arrays is an accepted datagram of the window model |
| Receiver.Receiver.HandleDatagram | crates/longboy/src/proto/receiver.rs:46-166 | for any bytes the new cycle, flags and sink are those of the window model, and every byte left in the buffer is determined: header opened, taken slots opened, the rest as it arrived |
| Link.StillDatagram | crates/longboy/src/proto/sender.rs:44-87 | what an emitted datagram carries does not change as the history grows |
| Link.EmitPaced | crates/longboy/src/proto/sender.rs:44-87 | if nearly a lap of polls takes longer than 2048 ms (about 30 polls a millisecond), so does nearly a lap of datagrams |
| Link.Transmit | crates/longboy/src/client/client_to_server_sender.rs:95-112 | polling the sender object once a tick yields exactly the datagrams of that history, each stamped with its millisecond |
| Link.CopiesAreGenuine | crates/longboy/tests/sender_receiver.rs:186-223 | copies of those datagrams, lost, repeated and reordered at will, satisfy every premise of the end-to-end theorems |
| Link.Play | crates/longboy/src/client/server_to_client_receiver.rs:90-103 | the receiver object handed one datagram after another ends in the state and sink of the modelled run |
| Link.CycleTestIsExact | crates/longboy/src/proto/receiver.rs:71-92 | the cycle test accepts exactly the numbers 0 to 256 ahead, within a lap |
| Link.AcceptanceIsExact | crates/longboy/src/proto/receiver.rs:70-92 | the two wrapping tests accept exactly the datagrams at most 2048 ms old and 0 to 256 ahead, never one of another lap |
| Link.AcceptanceModulo | crates/longboy/src/proto/receiver.rs:70-92 | whatever the lap, a genuine datagram is admitted if and only if it is at most 2048 ms old and its distance modulo a lap is at most 256; it is then taken for the frame that far ahead |
| Link.StallEnds | crates/longboy/src/proto/receiver.rs:70-92 | fresh datagrams more than 256 ahead are dropped for the rest of the lap, and the 257 after that are taken for the frames one lap before them |
| Link.DeliveredIsContents | crates/longboy/src/proto/receiver.rs:134-147 | the receiver's slot of a frame is the sender's slot of that frame, so blocks arrive unchanged |
| Link.InvisibleIff | crates/longboy/src/proto/receiver.rs:141 | a block is lost as absent if and only if it is the one zeros decrypt to |
| Link.EndToEnd | crates/longboy/src/proto/receiver.rs:46-166 | over every genuine run the byte-level receiver is the window model fed with numbers, and the sink holds the source's blocks of the processed frames in order |
| Link.ExactlyOnceEndToEnd | crates/longboy/tests/sender_receiver.rs:123-223 | under bursty loss and mirroring the sink receives every block up to the newest arrival exactly once, in the ideal order |
| Sinks.ExactlyOnceCounts | crates/longboy/tests/sender_receiver.rs:123-223 | under bursty loss and mirroring the sink has received each block exactly as often as the source produced it up to the newest arrival, but for the one that encrypts to zeros |
| Sinks.CoverageCounts | crates/longboy/src/proto/receiver.rs:116-165 | in any order of near arrivals the sink has received each block exactly as often as the source produced it in the frames some arrival carried |
| Sinks.SameSinks | crates/longboy/tests/sender_receiver.rs:225-360 | two arrival orders of the same datagrams, near on arrival, end with the same position and flags and the same blocks in the sink, equally often |
| Sessions.HandleSound | crates/longboy/src/server/client_to_server_receiver.rs:106-137 | connects and disconnects keep ids a bijection onto live sessions and every route on a live session that lists it |
| Sessions.HandleTouches | crates/longboy/src/server/client_to_server_receiver.rs:113-136 | a connect or disconnect touches one session: every other keeps its index, key and addresses; a new one starts with its key, no address and an unused index |
| Sessions.HandleRoutes | crates/longboy/src/server/client_to_server_receiver.rs:113-136 | connects leave every route, and a disconnect removes exactly the routes of the addresses its session lists |
| Sessions.OtherRoutesSurvive | crates/longboy/src/server/client_to_server_receiver.rs:125-136 | on exact tables every route to another session survives |
| Sessions.HearChanges | crates/longboy/src/server/client_to_server_receiver.rs:139-190 | a packet of at least 9 bytes with a known id and byte 0, 1 or 2 lists and routes its address under AudioVideo, Background or Voice of that session and changes nothing else; any other packet changes nothing |
| Sessions.BeatSound | crates/longboy/src/server/client_to_server_receiver.rs:169-188 | so does a heartbeat, whichever address it claims |
| Sessions.HandleExact | crates/longboy/src/server/client_to_server_receiver.rs:106-137 | connects and disconnects keep the address map an exact inverse |
| Sessions.BeatExactIff | crates/longboy/src/server/client_to_server_receiver.rs:169-188 | a heartbeat keeps the address map an exact inverse if and only if its address is not listed elsewhere |
| Sessions.RoutesBound | crates/longboy/src/server/client_to_server_receiver.rs:97-101 | the address map never exceeds three entries a session |
| Sessions.HearAllSound | crates/longboy/src/server/client_to_server_receiver.rs:139-190 | no sequence of heartbeats unwraps a dead index |
| Sessions.DispatchSound | crates/longboy/src/server/client_to_server_receiver.rs:192-225 | no datagram unwraps a dead index; each goes unchanged, with the clock reading, to a live session that lists its address |
| Sessions.DispatchExact | crates/longboy/src/server/client_to_server_receiver.rs:192-225 | on exact tables a session is handed exactly the datagrams of the right length from the addresses it lists, in order |
| Sessions.ClientToServerReceiver.PollServerSessionEvents | crates/longboy/src/server/client_to_server_receiver.rs:106-137 | drains the events into the tables, and panics exactly when some event is not enabled |
| Sessions.ClientToServerReceiver.PollForClientSocketAddresses | crates/longboy/src/server/client_to_server_receiver.rs:139-190 | takes in the heartbeats, skipping short packets, unknown mirrorings and unknown ids |
| Sessions.ClientToServerReceiver.PollForClientDatagrams | crates/longboy/src/server/client_to_server_receiver.rs:192-225 | the datagram loop refines `Dispatch`: which receiver is called with which bytes and timestamp, in order |
| Server.HandleAllIsReplay | crates/longboy/src/server/client_to_server_receiver.rs:109-136 | on sound tables, draining panics exactly when the log meets a duplicate or unknown id |
| Server.RegisterIff | crates/longboy/src/server.rs:52-65 | a registration keeps the tasks in step with the server if and only if the id is new |
| Server.PoliteStep | crates/longboy/src/server.rs:52-77 | no step of a polite caller panics anywhere, and every task stays in step with its tables sound and routed by the latest heartbeats |
| Server.NoPanic | crates/longboy/src/server.rs:52-77 | the same at every point of every interleaving |
| History.RunIsHistory | crates/longboy/src/server/client_to_server_receiver.rs:106-190 | at every point of every polite interleaving: the sessions are those registered and not removed since, with their keys; a queue is what its task has not drained; a task holds the sessions it saw connect, each with its key and, for each mirroring, exactly the address of the latest heartbeat with that id and byte since the connect |
| History.DrainedTask | crates/longboy/src/server.rs:52-77 | a task with nothing queued holds exactly the server's sessions, each with its own key |
| Routing.BeatRouted | crates/longboy/src/server/client_to_server_receiver.rs:169-188 | a heartbeat from its owner's address keeps the map exact and every listed address with its owner |
| Routing.RoutesExact | crates/longboy/src/server/client_to_server_receiver.rs:106-190 | over every interleaving in which no address is claimed by two (session, mirroring) pairs, at every point every task's address map is the exact inverse of its sessions' addresses, and routes to the owner's session |
| Routing.RoutedIffLatest | crates/longboy/src/server/client_to_server_receiver.rs:139-190 | in such a run an address is routed if and only if it is that of the latest heartbeat of its owner's session and mirroring since the connect, and then to that session |
| Routing.OwnDatagramsOnly | crates/longboy/src/server/client_to_server_receiver.rs:192-225 | so a session's receiver is handed exactly the datagrams from its own routed addresses, in order |
| Server.Server.Register | crates/longboy/src/server.rs:52-65 | within capacity, records the session and sends it on every queue |
| Server.Server.Unregister | crates/longboy/src/server.rs:67-77 | for a known id, sends its removal on every queue and forgets it |
| Broker.FirstFree | crates/longboy-server-cli/src/broker.rs:61-74 | the first free player index, or none if all are taken |
| Broker.SessionBroker.NextPlayerIndex | crates/longboy-server-cli/src/broker.rs:61-74 | takes the first free index out of the free list |
| Broker.SessionBroker.AllocateSessionId | crates/longboy-server-cli/src/broker.rs:46-59 | hands out the next u64 id and records its player index |
| Broker.BooksStep | crates/longboy-server-cli/src/broker.rs:46-74 | issuing an index and an id keeps ids below the counter, each with its own taken index, and the id is new |
| Broker.AdmitRegisters | crates/longboy-server-cli/src/main.rs:220-231 | with an index free and room: the next id gets that index and no other id or index changes; an established session is on the server with its key and its connect is last on every queue; otherwise the server and tasks are as they were |
| Broker.AdmitFull | crates/longboy-server-cli/src/main.rs:220 | with no index left nothing changes |
| Broker.AdmitChain | crates/longboy-server-cli/src/main.rs:213-233 | accepting a connection never panics and keeps every queued or processed id known to the broker |
| Broker.HandleConnection | crates/longboy-server-cli/src/main.rs:213-233 | the accept path on the broker and server objects is one admitted connection of the model |
| Broker.NothingFails | crates/longboy-server-cli/src/main.rs:174-233 | over every interleaving of connections, drains, heartbeats and removals, with room for every player, no assertion, no duplicate or unknown id and no factory lookup ever fails |
| Connections.RunIsMoves | crates/longboy-server-cli/src/main.rs:174-233 | after every orderly run: connection number k has id k and player index k-1, and the server's sessions are exactly the established connections not removed since, each with its own key |
| Connections.ProgramIsPolite | crates/longboy-server-cli/src/main.rs:213-233 | the program keeps what the server asks of its callers, so the theorems on polite runs hold of it |
| Connections.DrainedProgram | crates/longboy-server-cli/src/main.rs:174-233 | a task that has drained its queue holds exactly those connections, each with its own key |
| Connections.FactoriesServe | crates/longboy-server-cli/src/broker.rs:105-142 | at every such point a factory asked for any session a task holds or has queued finds the index that connection was given, the one below its id, taken and no other session's; the sink stamps its low byte |
| Connections.NumbersDistinctIff | crates/longboy-server-cli/src/broker.rs:133-142 | the byte a sink stamps tells all players of every run apart if and only if there are at most 256 players |

## Left out

- AcceptanceIsExact: sender and receiver read one synchronised millisecond clock, a copy is less than 65536 ms old, nearly a lap of datagrams takes longer than 2048 ms to send, and a fresh datagram is less than one lap ahead of the receiver; the cycle number cannot tell laps apart. `AcceptanceModulo` drops the last two premises.
- The server-to-client sender task: its event draining is the connect and disconnect half of the receiver task above, its heartbeat sets one optional address, and its polling sends each datagram of `Sender` on three sockets; it would add only easy members.
- RC5 and its key schedule: external; any pair of mutually inverse 4-byte and 8-byte block maps is allowed.
- SIZE = 0: the model takes SIZE >= 1, hence windows of at most 415 frames.
- Sources, sinks and factories: a source poll is whether it reported a frame and what it left in its slot; the sink is the sequence of blocks it received; a factory is its lookup.
- Sockets, QUIC, TLS, configuration, tracing and runtimes: arrivals, heartbeats, clock readings and the order of polls are arbitrary inputs.
- The receivers inside a task's sessions: a session keeps the key its receiver was made with, and a poll yields the calls of the receivers, in order; what one call does is `Receiver`.
- The arena: a map whose indices are never reused. Hash map capacity: only the assertion in `register`, with a constant capacity.
- The client's heartbeat schedule and the builder's port checks: no effect on the protocol state.
