# Verification of the io4edge client core

A Dafny model of the three components that carry every io4edge function block client, and
proofs about them:

* the framed transport over a TCP socket (`src/unix/socket_transport.c`),
* the bounded stream queue (`src/streamq.c`),
* the command/response protocol with its reader thread (`src/functionblock.c`).

`dafny verify dfyconfig.toml` checks everything.

## Structure

| file | content |
|---|---|
| `Common.dfy` | bytes, options, result codes |
| `Context.dfy` | the rolling context byte: recurrence bound, value law, when it stays in the alphabet |
| `Ring.dfy`, `Streamq.dfy` | ring index arithmetic; the queue as an array class refining a sequence |
| `StreamqConcurrent.dfy` | the queue as a step system over any set of threads |
| `Framing.dfy`, `SocketTransport.dfy` | the frame format; reading and writing over a socket that cuts data at will |
| `Protocol.dfy` | the client as a labelled transition system, with rules that restrict runs |
| `Scenarios.dfy` | short runs from which the failing examples are put together |
| `Pairing.dfy` | which command a response is credited to |
| `Tokens.dfy` | conservation laws of `cmd_sem` and `cmd_response` |
| `Progress.dfy` | from every state a command can end and the wire can be drained |
| `OffByOne.dfy`, `HeadOfLine.dfy` | two ways in which the client stays stuck, over runs of any length |
| `Fidelity.dfy` | what reaches the application, against what was on the wire |
| `SlotExclusion.dfy`, `SlotRefinement.dfy` | the unlocked accesses to `cmd_response`, and when they amount to an atomic exchange |
| `Client.dfy` | the client object over the socket and the queue, tied to the transition system |

A run is a sequence of labels; a property of "every reachable state" quantifies over all
runs of all lengths and interleavings. A rule says which steps of the device, the scheduler
or the application a theorem allows; the rule `AnyStep` allows all. The methods of the class
`Client` carry a ghost state of the transition system which `Valid` ties to the fields, so
that the theorems about runs hold of the object. The reader thread runs inside `Command` at
the two places where it can matter: while the command waits, and between its wake-up and its
look at the slot.

Assumptions: mutex and semaphore calls do not fail; `sem_timedwait` times out only while the
semaphore is 0; the sections of the queue that its mutex guards are atomic, and so is every
single access to `cmd_response`; `char` arithmetic rolls over at 256; errno values are those
of Linux. A context is compared as a C string, so the byte 0 is the empty string. The four
length bytes are combined by addition, which equals the bitwise OR of the code because the
shifted bytes do not overlap.

## What the proofs say about the code as it is

* The last length byte repeats the shift by 16 (line 126 of the transport). A frame is read
  back exactly when bits 24..31 of its length equal bits 16..23: every length below 65536,
  none from 65536 to 2^24 - 1. `Framing.IntendedLengthField` is about the encoder with a
  shift by 24, which is not in the source.
* The context byte does not stay in 'A'..'Z'. The wrap test follows only the second
  increment, and it fires exactly when a command matches after the byte has travelled 23
  steps from 'A', modulo 256. So the contexts sent lie in 'B'..'Y' exactly when no command
  that carried 'X' matches and none that carried 'Y' goes unmatched
  (`Context.StaysInAlphabet`). Twelve matches in a row already send 'Z' and thirteen the
  byte 92; a run in which every response matches walks through 128 different bytes.
* A context can recur after 13 commands. A late response is therefore safe when it is taken
  fewer than 13 commands late, and only then. Counted to the moment it enters the slot, the
  bound is one lower, because the next command may take it; and that bound holds only while
  no write fails and no wait times out between the reader's store and its post. Otherwise a
  response can sit in the slot for 255 commands until its context comes round.
* Timeouts leave a surplus of tokens that is never worked off. After one timeout of a
  settled client no command ever matches again, in all runs, exactly when each response
  enters the slot only after its own command has looked there, no write fails and no further
  wait times out (`OffByOne.LagThreshold`). Arriving after the command took its token is not
  late enough: a response that comes in between overwrites the stale one and matches. While
  responses lag behind the slot, failing writes and further timeouts do not help the client
  either: they only let the context come round, so that a command accepts a response at
  least 13 commands old (`OffByOne.LaggardsNeverServe`).
* The accesses to `cmd_response` without a lock exclude each other in all runs exactly when
  no wait times out and no unsolicited response arrives. In just those cases is every
  response object released at most once: after a single timeout, or a single unsolicited
  response, an object can be freed by both threads and another can be lost.

## Model

| member | source | states |
|---|---|---|
| Common.ResultCodes | src/include/io4edge_client.h:21-26 | the result codes are the numbers of the public header |
| Context.RecurrenceBound | src/functionblock.c:115-156 | for every history of matched and unmatched commands, two commands with the same context are at least 13 sends apart |
| Context.RecurrenceAtThirteen | src/functionblock.c:153-156 | a context can recur after exactly 13 sends if and only if it lies in 'B'..'Y' |
| Context.ParityLaw | src/functionblock.c:153-156 | the byte held between commands is odd exactly when an even number of commands went unmatched since the start or the last wrap |
| Context.ValueLaw | src/functionblock.c:115-156 | for every history the byte held between commands is 65 plus the distance travelled since the start or the last wrap, modulo 256: one step for an unmatched command, two for a matched one |
| Context.WrapsExactly | src/functionblock.c:153-156 | a wrap happens exactly when the last command matched and the distance travelled before it is 23 modulo 256 |
| Context.WrapNeedsUnmatched | src/functionblock.c:155-156 | corollary of the exact condition, in terms of parity: before a wrap the number of unmatched commands is odd |
| Context.StaysInAlphabet | src/functionblock.c:115-156 | all contexts sent lie in 'B'..'Y' if and only if no command that carried 'X' matched and none that carried 'Y' went unmatched |
| Context.StaysUpToZ | src/functionblock.c:115-156 | they lie in 'A'..'Z' if and only if every command but the last kept to that condition |
| Context.LeavesAlphabet | src/functionblock.c:115-156 | twelve matches in a row send 'Z', thirteen send 92, which is outside 'A'..'Z' |
| Context.AllMatchedRun | src/functionblock.c:115-156 | a run in which all responses match never wraps and repeats its contexts with period exactly 128 |
| Context.AllMatchedSends | src/functionblock.c:115-156 | in such a run command n carries (66 + 2n) mod 256 |
| Ring.AdvanceIdx | src/streamq.c:48-51 | the index moves by one and goes from the last place back to the first |
| Ring.LiveAppends | src/streamq.c:77-79 | writing the slot after the last entry appends to the entries and overwrites none of them |
| Ring.LiveDrops | src/streamq.c:99-101 | advancing the read index removes exactly the oldest entry |
| Streamq.Streamq.constructor | src/streamq.c:14-33 | a new queue of the given capacity, 0 included, is empty |
| Streamq.Streamq.Push | src/streamq.c:69-83 | appends, or times out and changes nothing exactly when the queue is full |
| Streamq.Streamq.Pop | src/streamq.c:89-105 | hands out the oldest entry and removes it, or times out and changes nothing exactly when the queue is empty |
| Streamq.Streamq.Entries | src/streamq.c:108-115 | the number of entries |
| StreamqConcurrent.RingSafety | src/streamq.c:69-105 | for any threads in any interleaving: the units of both semaphores and the threads between take and post add up to the capacity; nentries is read_sem plus stored-not-posted producers plus granted consumers; a producer about to store finds a dead slot and a consumer about to remove finds a live one |
| StreamqConcurrent.LinearizableFifo | src/streamq.c:76-80 | in every reachable state the removed messages are a prefix of the stored ones and the ring holds the rest, in order |
| StreamqConcurrent.SectionsActOnOneBuffer | src/streamq.c:76-102 | the concurrent ring acts as one bounded sequence: only the guarded sections change it, appending where there is room and removing the oldest entry |
| StreamqConcurrent.PushesKeepTheirArguments | src/streamq.c:69-77 | in every run the messages stored are, in order, the arguments of the pushes that stored them; a producer holds its own argument; each argument of a push past its wait is stored or held exactly once |
| StreamqConcurrent.PushStoresItsMessage | src/streamq.c:69-81 | whatever other threads do between the wait and the section, the section of a push appends the message the push was called with |
| StreamqConcurrent.PopReturnsTheOldest | src/streamq.c:99-104 | whatever other threads do before it returns, a pop hands out the entry that was the oldest when its section ran |
| StreamqConcurrent.TimeoutsAreHonest | src/streamq.c:72-96 | a push or pop times out, rather than being granted, exactly when every unit is accounted for by live slots or operations in flight |
| StreamqConcurrent.QueueProgress | src/streamq.c:29-30 | with a positive capacity producers and consumers are never all blocked; with nothing in flight the semaphores equal the fill level and the free room |
| StreamqConcurrent.InFlightOperationsFinish | src/streamq.c:76-103 | from every state the operations in flight can finish without waiting, after which read_sem counts exactly the entries: no wake-up is lost |
| Framing.LengthField | src/unix/socket_transport.c:81-126 | for every 32-bit length, what the receiver decodes from the bytes sent; it is the length itself exactly when bits 24..31 equal bits 16..23 |
| Framing.IntendedLengthField | src/unix/socket_transport.c:81-126 | variant, not in the source: the encoder with a shift by 24 is inverted for every 32-bit length |
| Framing.FrameBytes | src/unix/socket_transport.c:114-126 | the bytes on the wire: FE, ED, then bits 0..7, 8..15, 16..23 and again 16..23 of the length, then the payload |
| Framing.MessageBytes | src/unix/socket_transport.c:64-106 | for any bytes: after FE ED and a length, least significant byte first, just that many bytes are the message; other first bytes are bad magic; too few bytes are a truncated message |
| Framing.FrameParsed | src/unix/socket_transport.c:64-126 | what the receiver makes of a frame of any length, with any bytes behind it: as many bytes as the decoded length says, or a truncated message |
| Framing.FrameRoundTrip | src/unix/socket_transport.c:64-126 | a frame followed by any bytes is read back as its payload, leaving those bytes, exactly when its length survives the encoder |
| Framing.NextFrame | src/unix/socket_transport.c:64-106 | in a stream of frames every read starts and ends at a frame boundary |
| SocketTransport.ReadComplete | src/unix/socket_transport.c:24-40 | however reads are cut, success fills the buffer with the next bytes and consumes just those; failure consumes fewer and reports the end of the stream or an errno |
| SocketTransport.ReadMsg | src/unix/socket_transport.c:42-107 | consumes nothing on a poll timeout, the header on bad magic bytes, header and payload on success, where the buffer is NULL exactly when the payload is empty; on a failing read, which code it returns (EAGAIN in the header becomes a timeout) and that it consumed part of the header, or the header and part of the payload; without read errors the outcome depends on the bytes alone |
| SocketTransport.WrittenByScript | src/unix/socket_transport.c:128-142 | by the script alone: a write fails exactly when an error other than 4 (EINTR) and 11 (EAGAIN) comes before all bytes were accepted, and then what was accepted up to the first such error has gone out |
| SocketTransport.WriteComplete | src/unix/socket_transport.c:128-142 | the loop ends for every script of short, zero, retryable and fatal writes and does what the script says: all bytes go out, or those accepted before the first error that is neither EINTR nor EAGAIN, the latter exactly when it fails |
| SocketTransport.WriteMsg | src/unix/socket_transport.c:114-143 | puts the header in front of the payload in place and sends exactly the part of the frame that the script of the socket takes, succeeding exactly when that is all of it; refuses a buffer without room for the header and changes nothing |
| SocketTransport.ReadMessages | src/unix/socket_transport.c:42-107 | repeated reads return exactly the payloads of a stream of frames, whatever the cuts and poll timeouts, and stop at a frame boundary |
| SocketTransport.Transfer | src/unix/socket_transport.c:42-143 | payloads sent by repeated writes and cut into arbitrary reads arrive as exactly those payloads |
| Protocol.MatchesExactly | src/functionblock.c:142-165 | a command accepts a response exactly when its context is the byte sent, or empty for the byte 0, whatever its status |
| Protocol.ContextLaw | src/functionblock.c:115-156 | in every reachable state each command carries the context determined by the matches before it, and one that took a response matched exactly when both carry the same context |
| Protocol.ContextsRecurLate | src/functionblock.c:115-156 | in a run of the protocol, equal contexts belong to commands at least 13 sends apart |
| Pairing.MispairingSpansThirteen | src/functionblock.c:115-152 | with an echoing device, whatever timeouts, write failures, late, repeated or lost responses: a command that matched used its own response or one at least 13 commands old |
| Pairing.TakenAgeThreshold | src/functionblock.c:139-152 | all runs that take no response `bound` or more commands late pair correctly if and only if `bound` is at most 13, whether or not the device may answer a command twice |
| Pairing.StoredAgeThreshold | src/functionblock.c:115-152 | all runs whose responses enter the slot less than `bound` commands late pair correctly if and only if nothing arrives, or `bound` is at most 12, no write fails and no wait times out between the reader's store and post; again whether or not the device may answer a command twice |
| Tokens.TokenConservation | src/functionblock.c:124-137 | with at most one answer to each written command, tokens plus responses in flight equal the timed-out waits, plus one during a wait |
| Tokens.TimeoutsLeaveResponses | src/functionblock.c:133-137 | a wait can time out only with a response in flight for it and for every wait that timed out before |
| Tokens.SurplusNeverShrinks | src/functionblock.c:124-137 | over any further run the surplus of tokens and responses in flight never decreases |
| Tokens.SlotAccounting | src/functionblock.c:133-146 | whatever the device sends: tokens in transit plus wake-ups to an empty slot equal overwritten responses plus the one in the slot; so empty wake-ups never exceed overwritten responses, and a response in the slot always has a token |
| OffByOne.NeverRecovers | src/functionblock.c:133-152 | out of step, in a run of any length and interleaving in which responses enter the slot only after their command has taken it, writes succeed and waits do not time out, every command is given the response to the command before it and fails, and the client stays out of step |
| OffByOne.OneTimeoutIsForever | src/functionblock.c:133-152 | under the same conditions a single timeout of a settled client makes every later command fail with a mismatch |
| OffByOne.LagThreshold | src/functionblock.c:133-152 | those conditions are exact: after one timeout of a settled client no command of any run matches if and only if responses come after their command took the slot, rather than its token, no write fails and no further wait times out |
| OffByOne.SlotOrToken | src/functionblock.c:133-141 | every command of every such run is given the response to the one before it if and only if responses come after their command took the slot; from the token on is not late enough |
| OffByOne.LaggardsNeverServe | src/functionblock.c:133-152 | with failing writes and further timeouts too: while responses lag behind the slot, a command that matches used a response at least 13 commands old, never its own |
| OffByOne.MismatchesWithoutEnd | src/functionblock.c:133-152 | for every n a run from a fresh client exists in which one timeout is followed by n mismatches in a row |
| OffByOne.StaleRepeats | src/functionblock.c:506-514 | from one stale response and token, a command and the late arrival of its response lead back to the same situation with one more mismatch |
| HeadOfLine.BlockedReaderStarvesCommands | src/functionblock.c:494-514 | while the reader is blocked on a full queue and nobody pops, no response is read, stored or posted, and the tokens present are all that commands can get |
| HeadOfLine.EveryCommandTimesOut | src/functionblock.c:133-137 | then, with no token left, every command in every run fails to write or times out |
| Progress.CommandCanEnd | src/functionblock.c:111-180 | from every state, without the reader, a command can come to its end; it times out exactly when it has yet to get a token and there is none |
| Progress.WireCanBeDrained | src/functionblock.c:468-520 | from every state, whatever a command is at, the reader can handle everything on the wire if stream data is taken, without giving up a push |
| Fidelity.EndToEndFidelity | src/functionblock.c:451-519 | in every reachable state: responses stored in the slot are the wire's responses in order; offered stream messages are the wire's in order; accepted ones are those taken by the application followed by those queued; without abandoned pushes nothing is missing; the slot holds the response stored last, and commands end only with stored responses |
| Fidelity.DropsOnlyWhenFull | src/functionblock.c:501-504 | a stream message is dropped only when the accepted messages not yet taken fill the queue |
| SlotExclusion.ExchangeIsAtomic | src/functionblock.c:139-140 | without timeouts and unsolicited responses the accesses of the two threads to the slot never overlap, a command clears what it read, the reader stores into an empty slot, and a woken command finds a response |
| SlotExclusion.ReleasedExactlyOnce | src/functionblock.c:139-176 | without timeouts and unsolicited responses every response object is freed or handed to the caller at most once, and exactly once by the time no command runs |
| SlotExclusion.FreedTwiceRun | src/functionblock.c:506-514 | with a timeout or an unsolicited response, a run in which both threads free the same response object |
| SlotExclusion.ReleaseThreshold | src/functionblock.c:139-176 | every response object is released at most once in all runs if and only if neither timeouts nor unsolicited responses occur |
| SlotExclusion.ReleaseIsFinal | src/functionblock.c:142-178 | undisturbed, a response that a command hands over is never freed, before or in any run after, and one it does not hand over is freed and never handed over |
| SlotExclusion.LossThreshold | src/functionblock.c:139-140 | in all runs every response object is in the slot, with a thread or released if and only if neither timeouts nor unsolicited responses occur |
| SlotExclusion.AccountsOfAllRuns | src/functionblock.c:133-514 | in every run, disturbed or not: tokens, unanswered commands and the response the reader holds number the disturbances so far, plus one during a wait; the slot holds the object stored last unless it was cleared since |
| SlotExclusion.ExclusionThreshold | src/functionblock.c:506-514 | the accesses exclude each other in all runs if and only if neither timeouts nor unsolicited responses occur |
| SlotRefinement.AccessRefines | src/functionblock.c:139-140 | each unlocked access of an undisturbed run is one step, or none, of a protocol run with an atomic exchange, an echoing device and no timeouts; a release is the finish of a command that matched its own response |
| SlotRefinement.UndisturbedAccessesAreAtomic | src/functionblock.c:506-514 | every state such runs reach represents a state the protocol reaches with an echoing device that answers at most once, without failing writes and timeouts, and in which every finished command matched its own response |
| Client.Client.constructor | src/functionblock.c:27-35 | the new client holds 'A', no response and no token, its queue of 100 is empty, and it is in the protocol's initial state |
| Client.Client.Command | src/functionblock.c:102-180 | bytes on the wire, result, context, semaphore and slot for every outcome of the write and every batch of messages the reader handles meanwhile: the status of the response found when its context is the one sent, a failure otherwise; a command that succeeds against an echoing device has found its own response or one at least 13 commands old |
| Client.Client.AwaitResponse | src/functionblock.c:133-172 | the wait times out exactly when no token is left and none arrives; otherwise the last response stored gives its status, and is handed out, only if its context is the one sent |
| Client.Client.CheckResponse | src/functionblock.c:142-172 | fails on a missing response or another context; on the context sent it returns the response's status and advances the context, wrapping before 'Z', whatever that status; hands the response out only on success |
| Client.Client.Dispatch | src/functionblock.c:494-519 | a response replaces the slot and posts one token, a stream message is queued if there is room, anything else is dropped |
| Client.Client.HandleMessages | src/functionblock.c:473-520 | over any batch the last response ends up in the slot, every response has posted a token, and the stream messages that fit are queued in order |
| Client.Client.ReadPass | src/functionblock.c:473-520 | a pass of the reader changes the client only by one whole message: what unpacking makes of the next payload; an empty payload changes neither slot nor tokens nor queue |
| Client.Client.ReadThread | src/functionblock.c:468-524 | from the bytes of a stream of frames, however cut, the client handles exactly what unpacking makes of the payloads, in order, and slot, tokens and queue depend on the non-empty ones alone |
| Client.Client.ReadStream | src/functionblock.c:438-466 | hands out the oldest stream message; one that cannot be unpacked is reported and gone; an empty queue times out |

## Left out

- Function block wrappers and request builders: they fill structures and call `command`.
- Message schemas and protobuf packing: `pack` and `unpack` are parameters; a response is its context, its mapped status code and the number of the command it answers.
- A response without a context field: the code relies on the field being there.
- `map_fb_error` and the response type checks: single-branch facts; a response carries the code its status maps to.
- Name lookup, connecting, socket options, logging: plumbing.
- Real time: a timeout is a step that may happen whenever its semaphore is 0, and the timeout arithmetic is not modelled.
- Allocation failure, thread cancellation, deletion of clients and queues, failing mutex and semaphore calls.
- Client.Client.Command: the reader's steps are given as two batches of messages around the wake-up; other interleavings are covered by the transition system, not by the method.
- Client.Client.AwaitResponse: takes the reader's steps as the same two batches of whole messages.
- Client.Client.Dispatch: a push into a full queue gives up at once, where the source blocks until room or a timeout of centuries; sequential code has no thread that could make room. `HeadOfLine.BlockedReaderStarvesCommands` is about the blocking reader.
- Client.Client.HandleMessages: for the same reason stream messages that do not fit are dropped where the source blocks.
- Client.Client.ReadThread: the endless loop is followed for any finite number of messages, and a push into a full queue gives up at once, since no other thread pops in sequential code.
- HeadOfLine.BlockedReaderStarvesCommands: the push timeout of more than two hundred years is taken as infinite.
- SocketTransport.ReadMessages: read errors in the middle of a frame are excluded, because the code loses the bytes consumed so far; `SocketTransport.ReadMsg` covers a single read with errors.
