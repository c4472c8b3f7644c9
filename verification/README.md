# Secure Tunnel: verification model

Secure Tunnel carries one opaque TCP stream over a Noise IK channel. This project models the whole path of an
application byte and the life of a session around it, and proves properties of every run: what an adversarial network
can and cannot achieve, what a faithful network guarantees, when a session ends, who is let in, and what the metrics
mean. Two smaller parts cover the crash safety of the release installer and the measuring code.

| file | what it models |
|---|---|
| `Basics.dfy`, `Wire.dfy` | byte strings; preface and length-prefixed frames with concrete big-endian headers |
| `FrameReader.dfy` | the incremental frame readers, in place over a stream that hands out pieces of any size, refining a pure parser |
| `Transport.dfy` | the mutex-guarded cipher state shared by both halves, take-before-use sealing and opening, as functions and as an object |
| `CopyLoops.dfy` | `copy_encrypt` and `copy_decrypt` as loops, with interference of the other task at every await point |
| `Endpoint.dfy`, `Steps.dfy` | one endpoint as a state machine: both copy tasks, the shared state, the relay loop, clock, faults and cancellation; what each of its steps does |
| `RelayLoop.dfy` | what the `select!` loop guarantees in every run, and the loop itself with its flag and timer |
| `Tunnel.dfy` | two endpoints joined by a network that delivers whatever bytes it likes |
| `Lossless.dfy` | the same tunnel over a first-in-first-out network, as a refinement |
| `Handshake.dfy`, `HandshakeObjects.dfy` | the handshake typestates, the identity-trial loop, both handshake routines, the configuration checks they need |
| `Accounting.dfy` | accept loop, semaphore and atomic metrics, one atomic operation per step |
| `Install.dfy` | `install-atomic.sh` over an inode file system, interruptible after every command |
| `Bench.dfy` | nearest-rank p95 with an in-place sort; the bounded full-duplex echo |

`dafny verify dfyconfig.toml` checks everything.

## How the pieces fit

Functions named after the source's operations (`Seal`, `Open`, `ParseRecord`, `Loop`, `FirstMessage`, ...) are the
specifications; methods and classes in the source's own in-place form are proved to compute them; the theorems are about
the functions and about runs of the machines built from them. The copy loops exist twice, as methods with interference
(`CopyLoops`) and as steps of the endpoint machine (`Endpoint`): both use the same `Seal` and `Open`, and both are proved
against the same parser of the whole stream (`CopyDecrypt`, `ReaderFollowsParser`) and the same log of records
(`CopyEncrypt`, `Tunnel.RunKeepsInv`); no theorem equates runs of the methods with runs of the machine.

A run is a list of labels of any length, and every label is allowed in every state (one that is not enabled changes
nothing), so a theorem over all lists covers every schedule.

Assumptions about what lies outside the repository:

- AEAD: an ideal log from key and nonce to plaintext and ciphertext. Ciphertext length is plaintext plus 16 (section 2.8
  of RFC 8439). Opening succeeds iff the ciphertext is the one recorded at exactly that key and nonce; nonces count up
  from 0 per direction and the largest one is reserved (section 5.1 of the Noise Protocol Framework, revision 34).
  `Transport.IdealAead` is a concrete instance, so the assumption is consistent. Encryptions under a session's keys are
  made only by that session's endpoints; under other sessions' keys anything may be encrypted at any time.
- Noise IK: the answer of the library to each call is a free input. Only `OverlapAcceptsPinnedKeys` and
  `HonestHandshakeCompletes` assume more (`MadeFor`: a first message opens under exactly the pinned key and shows the
  initiator's static key, section 7.5 of the same document), and `OrderOfIdentitiesIsIrrelevant` assumes that a message
  that opens shows a 32-byte key.
- The two keys of a session are fresh: nothing was encrypted under them before the session.

## What the proofs brought to light

- Half-close. docs/protocol.md:86-89 says that version 1 closes fully when either side reaches EOF and forwards no
  half-close. The code shuts down the tunnel writer on local EOF (crates/secure-tunnel-client/src/main.rs:465-472,
  crates/secure-tunnel-server/src/main.rs:387-394), and on the side where that task does not decide the session the loop
  goes on draining the other direction. `HalfCloseKeepsDraining` is such a run; `ExitCauses` says that this end never ends
  the loop, `RelayDrains` what the loop has drained when it returns.
- A panicked task. The `?` on a join error (crates/secure-tunnel-client/src/main.rs:369, 375;
  crates/secure-tunnel-server/src/main.rs:292, 298) returns before the two abort calls. "After the relay has returned both
  tasks are asked to stop" is therefore false in general; it holds iff the loop did not end through a panicked task
  (`AbortStopsRelaying`), and `PanicExitLeavesATaskRelaying` is a run where the survivor goes on relaying.
- abort() is a request. "After exit and abort no further record is relayed" is false: `AbortedTaskMayStillRelay` is a run
  in which an aborted uplink still seals and writes a record. An endpoint is silent for good iff both its tasks are finished
  (`SilentIff`); once the cancellations take effect, whenever that is, it is (`AbortStopsRelaying`).
- Idle timeout. With an activity token still waiting, `select!` may choose the timer, even at the moment of a record
  (`IdleExitWithPendingToken`); without a waiting token an idle timeout means a full idle window (`IdleExitMeansIdle`).
  A token waits exactly when there is a record the loop has not yet noticed (`TokenMeansUnseen`), and then nothing the loop
  can look at decides whether the timeout is a true one (`TokenHidesTime`).
- A clean end is not a complete transfer. A receiver cannot tell an orderly end from an adversary's cut at a record
  boundary: `CleanEndMayTruncate` is a run in which the client's relay returns Ok without the byte that the server sealed,
  and such a cut is possible at every record boundary (`CutAtAnyRecord`). What holds in every hostile run is the prefix
  property (`OutputIsPrefixOfInput`); the clean end is the whole input exactly when every sealed record was opened and the
  sender could seal all that it read (`CleanEndIsCompleteIff`). On a faithful network it is so exactly when the sender left
  nothing sealed unwritten and nothing read unsealed (`CleanEndIsWholeIff`), for which it is sufficient that the sending
  task returned Ok as well (`CompletedTransferIsExact`, `CompletedSessionIsExact`).
- Metrics. "Byte totals equal the sums over closed sessions" is false in general: bytes a copy task counts after the close
  sequence loaded its counter reach no total (`LateByteIsLost`). It holds iff those late bytes are zero modulo 2^64
  (`LateBytesReachNoTotal`). A panicked session gives back its permit but stays in the active gauge for ever, and its
  bytes are never totalled (`ActiveGauge`, `QuiescentTotals`).
- Installation. The trap on HUP, INT and TERM cleans up but does not end the script, which goes on (and, when the signal
  came between the copy and the final rename, fails at the missing staged file: `SignalledRunFails`). On the way it may
  still replace the rollback binary by the installed one (`SignalledRunMayLoseRollback`). A run cut between the two renames
  has lost the older rollback binary (`InterruptedUpgradeLosesOlderBinary`): the rollback name then designates the binary
  that is still installed, which is so exactly when the rollback rename was the last of the two to take effect
  (`RollbackIsInstalledIff`). A completed upgrade
  keeps its predecessor (`CompletedUpgradeKeepsPredecessor`).

## Model

| member | source | states |
|---|---|---|
| `Wire.PrefaceExact` | crates/secure-tunnel/src/lib.rs:69-85 | Exactly one six-byte string is a valid preface; a version error, with the two version bytes in order, is reported exactly for a well-formed preface of another version; everything else is an invalid preface |
| `Wire.DecodeExact` | crates/secure-tunnel/src/lib.rs:162-197 | For both header widths: decoding yields a payload iff the payload is within the limit and the input is byte for byte the frame of that payload |
| `Wire.DecodeAnswers` | crates/secure-tunnel/src/lib.rs:162-197 | For every header value and every tail, and for every input shorter than a header: the decoder's answer, with every size it reports |
| `Wire.BigEndian` | crates/secure-tunnel/src/lib.rs:174-178 | Two- and four-byte headers are big-endian |
| `Wire.HandshakeCodecBijection` | crates/secure-tunnel/src/lib.rs:140-156 | Handshake codec is a bijection: every message up to 4096 bytes round-trips, longer ones are refused with their size, and whatever decodes re-encodes to itself |
| `Wire.FramesArePrefixFree` | crates/secure-tunnel/src/lib.rs:140-197 | Two streams that both start with a frame and are equal have the same first payload and the same remainder |
| `Wire.DecodeRejectsCutAndTrailing` | crates/secure-tunnel/src/lib.rs:162-197 | A record frame cut anywhere is TruncatedFrame with the right expected and actual counts; a frame followed by anything is TrailingFrameBytes |
| `FrameReader.RecordExact` | crates/secure-tunnel-client/src/main.rs:514-530 | The record reader finds a frame iff the stream starts with the frame of a payload of legal size, the record decoder accepts what it found, and it answers None iff the stream is empty |
| `FrameReader.CutRecordIsAnError` | crates/secure-tunnel-client/src/main.rs:514-530 | End of stream at any byte inside a record is an UnexpectedEof error, never a clean end |
| `FrameReader.RecordHeaderDecides` | crates/secure-tunnel-client/src/main.rs:514-530 | For every claimed length and every tail: the record reader's answer, with the length an invalid frame is refused with |
| `FrameReader.LengthHeaderDecides` | crates/secure-tunnel-client/src/main.rs:531-550 | The same for the length-framed reader |
| `FrameReader.ParseAllFrames` | crates/secure-tunnel-client/src/main.rs:485-530 | n records written one after the other parse to exactly those n frames, and the reader then stands at whatever follows |
| `FrameReader.ParseAllExact` | crates/secure-tunnel-client/src/main.rs:485-530 | The parsed frames are always a prefix of the stream, each decodable, and they are the whole stream iff it ended cleanly |
| `FrameReader.HandshakeFramed` | crates/secure-tunnel-client/src/main.rs:531-550 | The handshake reader recovers an encoded message from any longer stream and returns only decodable frames |
| `FrameReader.ReadRecordFrame` | crates/secure-tunnel-client/src/main.rs:514-530 | For every way the stream splits its bytes: an I/O error only if the stream reported one, else exactly the answer of the pure parser, with the stream left right behind the frame |
| `FrameReader.ReadLengthFramed` | crates/secure-tunnel-client/src/main.rs:531-550 | The same refinement for the length-framed reader of the handshake |
| `FrameReader.ByteStream.ReadExact` | crates/secure-tunnel-client/src/main.rs:514-550 | Repeated partial reads fill the buffer with exactly the next bytes, or fail because the stream is shorter or by an I/O error; the rest of the buffer is untouched |
| `Transport.SealOpenRoundTrip` | crates/secure-tunnel/src/lib.rs:422-463 | A plaintext within the limit always seals on live state, and the frame opens to that plaintext at the matching nonce |
| `Transport.PostCipherSizeErrorsUnreachable` | crates/secure-tunnel/src/lib.rs:434-460 | With a 16-byte tag neither size check behind the cipher can ever fire, and sealing keeps every ciphertext tag-sized |
| `Transport.OpenIsAnswered` | crates/secure-tunnel/src/lib.rs:448-463 | Every answer of opening: the decoder's error for a mis-framed input, poisoned, closed or exhausted by the state, and on a ready state the plaintext iff the ciphertext is genuine at this key and nonce, the Noise decrypt error iff it is not |
| `Transport.SealIsAnswered` | crates/secure-tunnel/src/lib.rs:422-446 | Every answer of sealing and what it leaves: oversized plaintexts and states that are not ready are refused with the exact error, on a ready state every plaintext becomes a frame, one nonce and one log entry |
| `Transport.CallTrichotomy` | crates/secure-tunnel/src/lib.rs:422-463 | One call on live state succeeds, or fails before the state was taken and changes nothing, or fails after and leaves the closed state |
| `Transport.FailClosed` | crates/secure-tunnel/src/lib.rs:402-463 | Once the state is closed or poisoned, over every later call sequence on either half: every answer is an error, no nonce is used, the state never returns |
| `Transport.SharedStateIsTwoChannels` | crates/secure-tunnel/src/lib.rs:392-463 | For every interleaving of calls of both halves: up to and including the call that destroys the state, if any, each half gets the answers it would get alone; afterwards every call is refused; over the whole sequence the nonces sent and accepted are consecutive from the start, once each; the state survives iff it survives each half alone |
| `Transport.OppositeCallsCommute` | crates/secure-tunnel/src/lib.rs:392-463 | A successful seal and a successful open on the shared state may be swapped without changing either answer or the final state |
| `Transport.TransportCell.SealRecord` | crates/secure-tunnel/src/lib.rs:422-446 | Take-before-use sealing in place: new cell, log and answer are those of the specification for the ciphertext the AEAD returned, which is tag-sized |
| `Transport.TransportCell.OpenRecord` | crates/secure-tunnel/src/lib.rs:448-463 | Take-before-use opening in place: new cell and answer are those of the specification, nothing is encrypted, and the answer is the plaintext iff the ciphertext is genuine, the decrypt error iff it is not |
| `Transport.Split` | crates/secure-tunnel/src/lib.rs:392-400 | Both halves hold the same shared cell |
| `Transport.TransportSender.EncryptRecord` | crates/secure-tunnel/src/lib.rs:406-410 | The sending half acts on the shared cell exactly as sealing does |
| `Transport.TransportReceiver.DecryptRecord` | crates/secure-tunnel/src/lib.rs:416-420 | The receiving half acts on the shared cell exactly as opening does, with the same answers |
| `CopyLoops.SealedFramesAreReadable` | crates/secure-tunnel/src/lib.rs:422-446 | Writer, reader and decoder agree: every emitted frame is found whole at the head of any stream and decodes to its ciphertext |
| `CopyLoops.HalvesDoNotDisturb` | crates/secure-tunnel/src/lib.rs:422-463 | Each half's operation keeps what the other half relies on: its keys, its nonce and all records under its key |
| `CopyLoops.PausesMayBeLong` | crates/secure-tunnel/src/lib.rs:392-463 | Any sequence of operations of the other half, panics under the lock and encryptions elsewhere keeps it too, which is what one pause of a copy loop allows |
| `CopyLoops.CopyEncrypt` | crates/secure-tunnel-client/src/main.rs:455-483 | Under any interference of the other task and any read and write sizes: what was read is exactly the sealed chunks (at consecutive nonces), the tunnel got a prefix of the records, the counter moved by whole chunks; on Ok all input was read, all records written, the writer shut down, the byte counter moved by the input size modulo 2^64 and activity signalled; it ends otherwise only if a socket operation failed or the cipher state is of no more use, and says which |
| `CopyLoops.CopyDecrypt` | crates/secure-tunnel-client/src/main.rs:485-509 | Under the same interference: the records taken are the first records of the stream, each is the one in the log at the next nonce, the output is a prefix of their plaintexts, the counter moved by whole records; on Ok the stream ended cleanly after exactly these records and all plaintext was written, counted and signalled; it ends otherwise only if a socket operation failed, the parser says so at this place, the state is of no more use, or the next record is not genuine, and says which |
| `RelayLoop.RunKeepsInv` | crates/secure-tunnel-client/src/main.rs:325-399 | In every reachable state: bytes written plus bytes pending are the records so far, output plus pending are the opened plaintexts, no handle is polled twice, either an activity token waits or the deadline is at least an idle window after the last record, and both tasks are asked to stop iff the loop ended other than by a panic |
| `Steps.ReadIsSealed` | crates/secure-tunnel-client/src/main.rs:461-476 | For every read of 1 to 16384 bytes: on a ready state one record at the next nonce, put in line for writing; otherwise the task ends with the exact refusal |
| `Steps.WriteMoves` | crates/secure-tunnel-client/src/main.rs:477-479 | A write of any size moves that much in order; the record is flushed only when nothing is left |
| `Steps.EncryptGoesOn` | crates/secure-tunnel-client/src/main.rs:465-483 | A flush counts the record at this moment and signals activity while the loop runs; the end of the input closes the writer, which completes the task |
| `Steps.ReadIsTaken` | crates/secure-tunnel-client/src/main.rs:485-530 | For every read up to what is wanted: kept inside a record, an illegal length ends the task with that length, a whole record is opened and its plaintext put in line or its refusal ends the task |
| `Steps.ReaderAsks` | crates/secure-tunnel-client/src/main.rs:514-530 | What the reader asks for inside any record: one byte, the rest of the header, the rest of the payload |
| `Steps.OutputMoves` | crates/secure-tunnel-client/src/main.rs:497-500 | An output write of any size moves that much in order |
| `Steps.DecryptGoesOn` | crates/secure-tunnel-client/src/main.rs:488-509 | A flush counts the record; the end of the stream is clean exactly between records, and completes the task after the shutdown |
| `Steps.FaultsEndOneTask` | crates/secure-tunnel-client/src/main.rs:364-398 | A fault or panic ends one unfinished task and no other, a panic under the lock poisons the shared state, only an aborted task is cancelled |
| `RelayLoop.RelayDrains` | crates/secure-tunnel-client/src/main.rs:364-395 | A client relay returns Ok only with everything opened delivered and the stream at a record boundary; a server relay only with everything read sealed and written; no completed handle is ever polled again |
| `RelayLoop.ExitCauses` | crates/secure-tunnel-server/src/main.rs:286-311 | The loop ends only through the deciding task, an error or panic of a task, the idle timer at its deadline, or shutdown; it returns Ok iff the deciding task completed, so the clean end of the other direction never ends it |
| `RelayLoop.IdleExitMeansIdle` | crates/secure-tunnel-client/src/main.rs:360-390 | Idle coalescing: while no token waits, the deadline, and hence any idle timeout, lies at least one idle window after the last flushed record of the run, in either direction |
| `RelayLoop.IdleExitWithPendingToken` | crates/secure-tunnel-client/src/main.rs:384-389 | Counterexample for the case with a waiting token: a run in which the idle timeout fires at the very moment of a record |
| `RelayLoop.TokenMeansUnseen` | crates/secure-tunnel-client/src/main.rs:384-389 | While the loop runs, a token waits iff a record was flushed since the loop last took its activity branch |
| `RelayLoop.TokenHidesTime` | crates/secure-tunnel-client/src/main.rs:384-390 | Two runs that end in states equal but for the time of the last record, with a token waiting and the timer due: in one an idle timeout is a true idle window, in the other not |
| `RelayLoop.HalfCloseKeepsDraining` | crates/secure-tunnel-client/src/main.rs:364-373 | A client run in which the application ended its stream, the uplink shut down the tunnel writer and was joined, the loop goes on, and a further record of the server is delivered |
| `RelayLoop.ReaderFollowsParser` | crates/secure-tunnel-client/src/main.rs:514-530 | In every run of an endpoint the records handed to the cipher are the parse of all bytes consumed; the clean end and every framing error are the parser's, at the parser's place; only a last record can have been refused by the cipher |
| `RelayLoop.LastRecordIsLastFlush` | crates/secure-tunnel-client/src/main.rs:479-481 | The recorded time of the last record is the time of the last flush in the run, computed from the run alone |
| `RelayLoop.Relay` | crates/secure-tunnel-client/src/main.rs:360-398 | The loop with its own completion flag and timer leaves at the same step, with the same result, and makes the abort calls in the same cases as the machine |
| `RelayLoop.AbortStopsRelaying` | crates/secure-tunnel-client/src/main.rs:396-398 | Both tasks are aborted iff the loop did not end through a panicked task; then, at whatever later moment both are cancelled, the cancellation itself relays nothing and no continuation relays, counts or completes anything |
| `RelayLoop.SilentIff` | crates/secure-tunnel-client/src/main.rs:396-398 | In every reachable state, after abort() or not: no continuation takes, writes, consumes or delivers a byte, counts a record or completes a task iff both tasks are finished |
| `RelayLoop.AbortedTaskMayStillRelay` | crates/secure-tunnel-client/src/main.rs:396-398 | Counterexample: after a shutdown exit with both abort calls made, the uplink still seals and writes a whole record before its cancellation |
| `RelayLoop.FinishedIsFinal` | crates/secure-tunnel-client/src/main.rs:396-398 | Finished tasks stay exactly as they are in every continuation |
| `RelayLoop.PanicExitNeverCancels` | crates/secure-tunnel-client/src/main.rs:369-375 | After an exit through a panicked task no continuation ever cancels the surviving task |
| `RelayLoop.PanicExitLeavesATaskRelaying` | crates/secure-tunnel-client/src/main.rs:369-375 | Counterexample: a run in which the relay has returned and the surviving task still seals and writes a whole record |
| `Tunnel.EncReadKeeps` | crates/secure-tunnel/src/lib.rs:422-446 | A read of copy_encrypt adds at most one record, at the next nonce of its own key, and disturbs neither the peer's log nor what was delivered |
| `Tunnel.OpenedIsTheRecord` | crates/secure-tunnel/src/lib.rs:448-463 | Any frame that opens at nonce i is the peer's record i, byte for byte, and opens to chunk i |
| `Tunnel.DecReadKeeps` | crates/secure-tunnel-client/src/main.rs:485-530 | Whatever bytes arrive, delivery stays a record-by-record prefix of what the peer sealed |
| `Tunnel.RunKeepsInv` | crates/secure-tunnel/src/lib.rs:392-463 | In every run over an adversarial network the log under each key is exactly what its owner sealed, nonces count the records, and each side has opened a prefix of the other's records |
| `Tunnel.AcceptedIff` | crates/secure-tunnel/src/lib.rs:448-463 | A working receiver accepts a whole frame iff it is the peer's next record byte for byte, and then takes that chunk; otherwise it ends with the Noise decrypt error and the state is gone |
| `Tunnel.MoveEffect` | crates/secure-tunnel-client/src/main.rs:455-530 | A move is a step of one endpoint and of nothing else, or an encryption in another session |
| `Tunnel.OutputIsPrefixOfInput` | crates/secure-tunnel-client/src/main.rs:455-530 | In every run with drops, replays, alterations, injections, reflections, other sessions, re-chunking, faults, timeouts and aborts, in both directions: the output is a prefix of the peer's input, and the accepted network bytes are a prefix of the bytes the peer produced |
| `Tunnel.CleanEndIsCompleteIff` | crates/secure-tunnel-client/src/main.rs:485-530 | On a hostile network, for every run and both directions: a receiver's clean end is a complete transfer iff every sealed record was opened and everything read was sealed |
| `Tunnel.CutAtAnyRecord` | crates/secure-tunnel-client/src/main.rs:485-530 | In every state of a run in which the client's reader stands between two records, the network can end the stream there and the client's relay returns Ok with what it has |
| `Tunnel.CleanEndMayTruncate` | crates/secure-tunnel-client/src/main.rs:364-398 | Counterexample: the server read and sealed a byte, the client's relay returns Ok with empty output |
| `Lossless.StepsAreTunnelSteps` | crates/secure-tunnel-client/src/main.rs:455-530 | The lossless network refines the adversarial one: each of its steps is one of that machine's, or none |
| `Lossless.ReadSucceeds` | crates/secure-tunnel-client/src/main.rs:514-530 | A read of genuine bytes in any fragmentation never runs into a framing or authentication error |
| `Lossless.RunKeepsNetInv` | crates/secure-tunnel-client/src/main.rs:455-530 | In every run: bytes consumed plus bytes in flight are the bytes written, a receiver ends cleanly only at the sender's end of an empty pipe, and a cipher state is gone only after a nonce ran out |
| `Lossless.CompletedTransferIsExact` | crates/secure-tunnel-client/src/main.rs:455-509 | When the sending task returned Ok at end of input and the receiving one returned Ok, the output is the input byte for byte and chunk for chunk |
| `Lossless.CompletedSessionIsExact` | crates/secure-tunnel-client/src/main.rs:364-398 | When both relays of a session return Ok, the client's output is what the server's destination sent |
| `Lossless.CleanEndIsWholeIff` | crates/secure-tunnel-client/src/main.rs:455-509 | On a lossless network, whatever became of the sending task: a receiver's clean end is a complete transfer iff nothing sealed was left unwritten and everything read was sealed |
| `Lossless.NoFalseRejection` | crates/secure-tunnel-server/src/main.rs:377-450 | A receiving task on a lossless network fails only by its own socket, by a stream cut inside a record because the sending task ended without completing, or because its own endpoint ran out of nonces or a task of it panicked under the lock; with a completed sender never by framing, and never by the AEAD |
| `Lossless.SentCanBeDelivered` | crates/secure-tunnel-client/src/main.rs:485-509 | From every reachable state with a completed sender and a working receiver, the receiver alone can go on to return Ok with the whole input as output |
| `Lossless.EveryInputCanBeTransferred` | crates/secure-tunnel-client/src/main.rs:455-509 | From every state in which nothing stands in the way, for every further input in every chunking the nonces suffice for, the run can go on so that both tasks return Ok and the output is all that was read |
| `Lossless.WholeTransferIsPossible` | crates/secure-tunnel-client/src/main.rs:455-509 | The same from the beginning of a session, in either direction |
| `Lossless.PipeMoves` | crates/secure-tunnel-client/src/main.rs:455-530 | Any non-empty part of what is in flight, up to what the reader asks for, can be handed over and any part of a record written; the pipe keeps the rest in order |
| `Handshake.TrialsExact` | crates/secure-tunnel/src/lib.rs:297-339 | The identity loop accepts identity k iff k opens the message with an allow-listed initiator and no earlier trial stopped it; a stopping trial answers its Noise error or unauthorised; otherwise UnauthorisedClient iff some identity opened it, else the last identity's Noise error; its final expect panics iff there is no identity |
| `Handshake.ReceiveAnswers` | crates/secure-tunnel/src/lib.rs:297-339 | Every answer of receive_client in every state: order, decoder and spent-object errors first, then the stopping trial, then unauthorised or the last identity's Noise error |
| `Handshake.ReceiveRefusals` | crates/secure-tunnel/src/lib.rs:329-337 | Under a well-behaved library: unauthorised iff some identity opens the message and none for an allow-listed client, a Noise error e iff none opens it and e is the last identity's |
| `Handshake.ReceiveHonest` | crates/secure-tunnel/src/lib.rs:297-339 | For an honest client: accepted iff its key is configured and it is allow-listed, unauthorised iff configured and not allow-listed, the decrypt error iff not configured |
| `Handshake.OrderOfIdentitiesIsIrrelevant` | crates/secure-tunnel/src/lib.rs:310-338 | Success means that some identity opens the message for an allow-listed client; neither success nor the unauthorised answer changes under permutation of the identities |
| `Handshake.OverlapAcceptsPinnedKeys` | crates/secure-tunnel/src/lib.rs:259-339 | Key rotation: an honest client is accepted iff its pinned key is among the configured ones and it is allow-listed, by an identity with exactly that key; the two refusals are told apart exactly |
| `Handshake.ClientCallOrder` | crates/secure-tunnel/src/lib.rs:199-243 | Over every call sequence at most one first frame and one session, and a session only after the frame |
| `Handshake.ClientSpentForever` | crates/secure-tunnel/src/lib.rs:217-243 | Once the Noise state is gone no later call sequence yields a frame or a session |
| `Handshake.ClientCallEffects` | crates/secure-tunnel/src/lib.rs:217-243 | Out-of-order and mis-framed calls change nothing; exactly which calls send the frame, and every well-framed finish spends the object and yields a session iff the library accepted it |
| `Handshake.ClientAnswers` | crates/secure-tunnel/src/lib.rs:217-243 | Every answer of first_message and finish in every state, with the error of the first thing that is wrong |
| `Handshake.ServerCallOrder` | crates/secure-tunnel/src/lib.rs:286-368 | Over every call sequence the identities are tried at most once and only after a valid preface; sessions <= reply frames <= authorised clients <= rounds of trials <= 1 |
| `Handshake.ServerSpentForever` | crates/secure-tunnel/src/lib.rs:297-368 | After a refused first message no later call sequence yields a reply, a frame or a session |
| `Handshake.ServerCallEffects` | crates/secure-tunnel/src/lib.rs:286-368 | Out-of-order and mis-framed calls change nothing; exactly which calls authorise a client, hand out the reply frame and hand out the session |
| `Handshake.ServerAnswers` | crates/secure-tunnel/src/lib.rs:286-368 | Every answer of accept_preface, message and into_session in every state |
| `HandshakeObjects.ClientHandshake.FirstMessage` | crates/secure-tunnel/src/lib.rs:217-229 | Take-before-use in place equals the state-passing specification |
| `HandshakeObjects.ClientHandshake.Finish` | crates/secure-tunnel/src/lib.rs:233-242 | Take-before-use in place equals the state-passing specification |
| `HandshakeObjects.NewServerHandshake` | crates/secure-tunnel/src/lib.rs:265-283 | Succeeds iff there are 1 to 8 identities; otherwise the exact error and count |
| `HandshakeObjects.ServerHandshake.AcceptPreface` | crates/secure-tunnel/src/lib.rs:286-293 | In-place gate equals the specification |
| `HandshakeObjects.ServerHandshake.ReceiveClient` | crates/secure-tunnel/src/lib.rs:297-339 | The loop with its two variables equals the specified verdict, the identities are gone afterwards, and the final expect is never reached without an error to report |
| `HandshakeObjects.ServerReply.Message` | crates/secure-tunnel/src/lib.rs:348-360 | Take-before-use in place equals the specification |
| `HandshakeObjects.ServerReply.IntoSession` | crates/secure-tunnel/src/lib.rs:362-368 | Equals the specification |
| `HandshakeObjects.ServerReceive` | crates/secure-tunnel-server/src/main.rs:206-226 | The receiving part on any input: a reply object exactly for the identity that authenticates an allow-listed initiator behind a valid preface and frame; otherwise a failure of the stream or exactly the rejection that the bytes call for |
| `HandshakeObjects.HonestRejection` | crates/secure-tunnel-server/src/main.rs:206-226 | For an honest client's opening bytes: not rejected iff key configured and client allow-listed, UnauthorisedClient iff configured and not allow-listed, the Noise decrypt error iff not configured |
| `HandshakeObjects.RejectedIff` | crates/secure-tunnel-server/src/main.rs:206-226 | Nothing is rejected iff an authorised client is behind the bytes and the identity count is legal |
| `HandshakeObjects.ServerRunNoise` | crates/secure-tunnel-server/src/main.rs:206-236 | On any input bytes and faults the destination is opened only after a valid preface, a decoded first frame, an allow-listed initiator, the reply on the wire and a session, in this order, and every run's events and bytes are a beginning of that; a run that stops without a stream failure or an unreachable destination stops with exactly the error that the bytes and the library's answers call for; nothing is written to an unauthorised peer |
| `HandshakeObjects.CompleteNoiseHandshake` | crates/secure-tunnel-client/src/main.rs:300-323 | A session iff preface and first frame went out and a well-formed, accepted reply came back; otherwise a failure of a stream or exactly the error of the first thing that went wrong |
| `HandshakeObjects.HonestHandshakeCompletes` | crates/secure-tunnel/src/lib.rs:199-368 | An honest client and server: the client's frame passes the server's gate, is authenticated by an identity with the pinned key, and the server's reply gives the client its session |
| `HandshakeObjects.ValidateServer` | crates/secure-tunnel-server/src/config.rs:141-163 | The insert-as-you-go loop and its neighbours accept iff there are at most 8 identities, all files pairwise distinct, the connection limit is 1 to 1024 and the plaintext record limit 16384 |
| `Accounting.CloseOpPays` | crates/secure-tunnel-client/src/main.rs:795-829 | Each atomic operation of the close sequence moves each counter by exactly the change of what that session owes it, and each load takes the current flag or byte counter and nothing else |
| `Accounting.RunKeepsInv` | crates/secure-tunnel-client/src/main.rs:119-173 | Over every interleaving of atomic operations: permits, gauge, ids and all eight totals (including unauthorised, decrypt-failed, destination and duration) equal what the sessions owe, modulo 2^64, and every session's flag, counters, close reason, duration and loaded values are what its history of events says |
| `Accounting.AdmittedIff` | crates/secure-tunnel-client/src/main.rs:134-162 | A connection gets in iff a permit is free and no shutdown was signalled, and then takes one permit, is counted and runs under the next id |
| `Accounting.CloseCompletes` | crates/secure-tunnel-client/src/main.rs:795-829 | Every close sequence, from wherever it stands, can run to its end, where the session is closed and its permit free, and no other session notices |
| `Accounting.LedgersHold` | crates/secure-tunnel-client/src/main.rs:800-829 | The registers against the history of the run: handshake flag, byte counters, close reason, duration and panic are what happened, the loaded flag is the final one, and a counter is what was loaded plus what was moved after the load, modulo 2^64 |
| `Accounting.PermitsConserved` | crates/secure-tunnel-client/src/main.rs:119-173 | Free permits, permits of sessions and the one of a connection being admitted are together always max_connections |
| `Accounting.ActiveGauge` | crates/secure-tunnel-client/src/main.rs:788-801 | The gauge is the number of running and panicked sessions plus edges, modulo 2^64; it exceeds max_connections by at most the panicked sessions (not at all without panics); no decrement underflows while the number fits in 64 bits |
| `Accounting.IdsDistinct` | crates/secure-tunnel-client/src/main.rs:789-793 | Two sessions share an id iff their positions differ by a multiple of 2^64 |
| `Accounting.QuiescentTotals` | crates/secure-tunnel-server/src/main.rs:577-610 | When nothing is in progress: the success and failure totals count exactly the closed sessions whose handshake did and did not complete (other than by shutdown), together all closed sessions; each byte total plus the late bytes is the sum of the final counters of the closed sessions, modulo 2^64; every permit is free |
| `Accounting.TotalsFromEvents` | crates/secure-tunnel-server/src/main.rs:577-610 | At rest every counter is what the events of the run add up to, modulo 2^64: successes, failures and early shutdowns by handshake and reason, unauthorised, decrypt and destination totals by reason, the time by duration, the byte totals (with late bytes) by what was moved |
| `Accounting.StoppingAdmitsNobody` | crates/secure-tunnel-client/src/main.rs:126-173 | After the shutdown signal no continuation admits a connection: same sessions, same ids, same totals of admissions |
| `Accounting.LateBytesReachNoTotal` | crates/secure-tunnel-client/src/main.rs:819-826 | At rest a byte total equals the sum of the final counters of the closed sessions iff the bytes moved after the loads are zero modulo 2^64 |
| `Accounting.LateByteIsLost` | crates/secure-tunnel-client/src/main.rs:819-826 | Counterexample: a run at rest in which a session counted one byte and the total says none |
| `Accounting.TunnelMetrics.ConnectionOpened` | crates/secure-tunnel-client/src/main.rs:789-793 | Counts the connection and hands out the next id |
| `Accounting.TunnelMetrics.ConnectionClosed` | crates/secure-tunnel-client/src/main.rs:795-829 | Run without interruption, the close sequence is the machine's eleven steps in a row |
| `Accounting.CloseAllIs` | crates/secure-tunnel-client/src/main.rs:795-829 | Those eleven steps, counter by counter |
| `Install.ActiveInodesAreNeverWritten` | release/install-atomic.sh:67-98 | No command, write, fault, signal or kill changes the content of an inode that the installed name, its rollback name or a temporary rollback name designates |
| `Install.ReplacementKeepsPredecessor` | release/install-atomic.sh:83-98 | The installed name survives every step and changes only by the final rename; at that step the rollback name designates the very inode installed before, unchanged and signature-checked |
| `Install.InstalledIsAlwaysComplete` | release/install-atomic.sh:67-98 | Over any number of runs interrupted anywhere: once installed always installed, and the installed content is the original one or one that passed digest and signature checks of some started run |
| `Install.UndisturbedRunInstalls` | release/install-atomic.sh:67-101 | From any system at rest without a leftover link of this pid, for any release whose checks accept the content, copied in any number of parts, first installation or upgrade of an acceptable binary: the undisturbed run ends well with exactly that content installed |
| `Install.ChecksRefuse` | release/install-atomic.sh:75-101 | Each check that does not pass ends the run with both temporary names gone and everything else as it was; what a fault, a kill and a signal leave |
| `Install.SuccessMeansInstalled` | release/install-atomic.sh:96-101 | The script reports success exactly from its last check, which never refuses, and then the installed binary passed the checks of this run |
| `Install.SignalledRunFails` | release/install-atomic.sh:69-101 | A run that gets a trapped signal between the copy and the final rename goes on, never reports success, and the installed name keeps its inode |
| `Install.SignalledRunMayLoseRollback` | release/install-atomic.sh:69-98 | After a signal just before the hard link the script still makes it, renames it to the rollback name, and fails at the missing staged file |
| `Install.CompletedUpgradeKeepsPredecessor` | release/install-atomic.sh:67-101 | Whenever a run of the script ends successfully, after any number of interrupted ones, the rollback name designates the inode that was installed when that run began, with its content unchanged and signature-checked, and another inode is installed; if nothing was installed, the rollback name is what it was |
| `Install.RollbackChangesOnlyByItsRename` | release/install-atomic.sh:83-98 | The rollback name is never lost and changes only by its own rename, to the installed inode |
| `Install.InterruptedUpgradeHasNoOlderBinary` | release/install-atomic.sh:92-98 | Every way of ending a run between the two renames (kill, signal, fault, missing staged file) leaves the rollback name on the installed inode |
| `Install.RollbackIsInstalledIff` | release/install-atomic.sh:67-101 | In every reachable state with both names they designate the same inode iff, of the two renames, the rollback one took effect last; before either there is no rollback name |
| `Install.InterruptedUpgradeLosesOlderBinary` | release/install-atomic.sh:92-98 | Counterexample: a completed upgrade, then one killed between its renames; the installed binary is the same and no name designates the older one any more |
| `Bench.PercentileExact` | bench/src/lib.rs:61-67 | A value is the p95 iff it is an observed sample with at least 95% of the samples at most it and fewer than 95% below it |
| `Bench.PercentileIgnoresOrder` | bench/src/lib.rs:61-67 | The p95 is invariant under permutation of the samples |
| `Bench.PercentileOf` | bench/src/lib.rs:61-67 | The method on a sorted copy returns it, with the index in range for every non-empty input |
| `Bench.SortInPlace` | bench/src/lib.rs:63-64 | Leaves the array as the sorted permutation of its old content |
| `Bench.MoveKeepsAndProgresses` | bench/src/lib.rs:146-175 | Every move of writer, copier or reader keeps order and content of the bytes in transit, respects every capacity and strictly decreases a non-negative measure |
| `Bench.EnabledExact` | bench/src/lib.rs:146-175 | Each task can move any amount that its chunk and the buffers allow and no more |
| `Bench.MovesExactly` | bench/src/lib.rs:146-175 | A move of n bytes takes exactly n from one side and gives n to the other |
| `Bench.NoDeadlock` | bench/src/lib.rs:146-198 | In every state that is not final some move is possible, for any positive capacities and chunk size |
| `Bench.SchedulersExist` | bench/src/lib.rs:146-198 | For every choice of capacities there is a scheduler that always picks a possible move |
| `Bench.EveryScheduleFinishesExactly` | bench/src/lib.rs:146-198 | Under every such scheduler the transfer ends, with the whole payload sent and received in order |
| `Bench.FullPipelineNeedsTheReader` | bench/src/lib.rs:149-170 | With all buffers full and bytes left to send only the reader can move, so writer and reader must run concurrently |

Where both binaries contain the same code the table cites one of them; the server's copies of `copy_encrypt`,
`copy_decrypt`, the frame readers, the relay loop and the metrics are at crates/secure-tunnel-server/src/main.rs:249-470
and 571-610, the client's at crates/secure-tunnel-client/src/main.rs:325-550 and 788-829. The machines carry the side as
a parameter where the two differ (which task decides the end of the session).

## Left out

- Snow, X25519, ChaCha20-Poly1305 and SHA-256 internals: ideal AEAD, ideal IK answers and an arbitrary digest function stand in.
- Outer TLS, sockets, keepalive, nodelay and signal handling: byte channels and environment steps.
- Key files, permissions, base64, TOML, command line, logging and the doctor commands: input and output with shallow branching.
- CloseReason::from_error and error_stage: the close reason is a free input of the close sequence.
- Other field checks of both config.rs files; only identity count, distinctness and the connection limit are modelled.
- Errors of the listener itself, which end the process, and snapshots of the metrics, which only read them.
- Byte counters inside the endpoint machine: they are in the copy loops and in the accounting model.
- Bench throughput, first-byte latency, memory gates and JSON output: float division and input/output.
- live-acceptance.sh, verify-artifact.sh, build-macos-universal.sh, validate-install.sh and the property lists: orchestration of external tools.
- Handshake and connect timeouts as times: a timeout is an environment fault at an await point; no bound on handshake time is claimed, because writes before the reply have none.
- Fairness: the relay's liveness is stated as reachability (`SentCanBeDelivered`), not as eventual delivery.
- Install: the signature, slice and authority checks are one predicate on contents, the regular-file test is dropped, installers do not run concurrently, and names other than the four involved are not tracked.
- The accept loop, the installer and the echo transfer are concurrent or interruptible and are modelled as step machines on values, not as methods.
- MadeFor: covers first messages by honest clients only; dishonest first messages are covered by the theorems that leave the library's answers free.
- Handshake.ReceiveClient: the trial of an identity is a function of identity and message, so randomness inside the library is not modelled.
