# A verified model of the framed transport, the Base64 codec and the string algorithms

The repository under study is a small C++ networking library. This project models its core and
proves what the core is for.

**The framed transport.** A `NetConnection` accepts packets, queues their bytes in a waiting
buffer and hands that buffer to one asynchronous write at a time, swapping it with a second
buffer. A `NetPackageParser` on the other side collects whatever pieces TCP delivers, and
`NetManager::onDataReceived` dispatches the packets that are complete. `SendModel.dfy` gives the
send path as a state machine on values; `Connection.dfy` is the class with its real arrays, proved
to take the same steps. `Framing.dfy` says what a byte stream means; `PackageParser.dfy` is the
parser and the dispatch loop, proved against it. `SendRuns.dfy` and `Messages.dfy` hold the
invariants over every run, `Transport.dfy` composes sender, wire and receiver into the end-to-end
theorems, and `Link.dfy` drives the classes through arbitrary event sequences and carries the
theorems over to them. `Timers.dfy` adds a clock, and `PeerTimers.dfy` sets the timers of two peers
against each other.

The transport under a connection is the class `StreamSocket`: an asynchronous write keeps a
reference to the caller's array and takes its bytes at moments of its own choosing, as they stand
then. That the wire still carries the accepted bytes is therefore a statement about the two buffers
and not an assumption. Events are atomic steps: a send (the test of `m_bConnected`, which stands
outside the lock, and the locked body count as one step), a transfer of bytes, a completed or failed
write, a read, a connection error, a close, a keep-alive check and a timeout check. The error that an
overflow posts may come at any later time; the strand makes it come before any completion that was
not queued by then, so what is said of all runs holds of these runs too, and `EverythingArrives`,
which says that a run exists, asks that nothing was refused.

**Base64.** `Base64Spec.dfy` defines the encoding as sections 3.5 and 4 of RFC 4648 do, with 24-bit
groups read as four digits, and the 76-column lines of section 6.8 of RFC 2045. `Base64.dfy` is the
table construction, the encoder and the four-state decoder on arrays; `Base64Scan.dfy` says how the
decoder reads its input; `Base64Theorems.dfy` proves both directions of the inverse, and `Base64Verdict.dfy`
gives the exact verdict on every input in every mode.

**Strings.** `StringReplace.dfy`, `BsonQuota.dfy` and `StringDecrement.dfy` model the replacing
functions, the key quoting and the decimal decrement, each against a definition that does not
mention a loop.

Where code and comments disagree, the model follows the code:

- The comment on `MIN_SEND_BUF_SIZE` (src/net/NetConnection.cpp:17) says that exceeding it ends the
  connection; only the maximum does.
- `BASE64_IGNORE_SPACE` skips the first character outside the alphabet after a digit whatever it is,
  and asks only the following ones to be white space (`SkippingVerdict` has the exact condition,
  `IgnoreSpaceLetsOneThrough` an input).
- The strict decoder does not object to a stray character in the very last place (`StrictVerdict`).
- The timeout compares whole seconds, so a session can end up to a second early by an exact clock
  (`EarlyExactly` has the exact condition, `EarlyByAFraction` a run).
- sendDataAsync drops what waits when it refuses for want of room, and packets accepted before the
  posted error is handled still go out, so the receiver can miss one in the middle
  (`LostExactlyWhen` has the exact condition, `OverflowLosesAMessage` a run).

## Model

| member | source | states |
|---|---|---|
| Packages.HeaderLayout | src/net/NetPackage.cpp:24-49 | the twelve bytes of a header, one by one: length, low word of the sequence number and command with the most significant byte first, then reserved and sequence bits 32 to 35, then version, encrypt and compress |
| Packages.ParseLayout | src/net/NetPackage.cpp:64-93 | each field that is read, spelled from the bytes and bits it is read from |
| Packages.HeaderRoundTrip | src/net/NetPackage.cpp:24-93 | decoding an encoded header gives it back; of the sequence number the low 36 bits survive, so it is exact below 2^36 |
| Packages.HeaderBytesRoundTrip | src/net/NetPackage.cpp:24-93 | every twelve bytes are the encoding of the header they decode to |
| Packages.PackageRoundTrip | src/net/NetPackage.cpp:100-146 | decoding an encoded packet gives it back with its length field set to 12 + content size, and the length field on the wire is the number of bytes |
| Packages.ReceivedIsStable | src/net/NetPackage.cpp:24-116 | a packet as received encodes to the same bytes again: the 36-bit cut happens once |
| Packages.NetPackageHeader.constructor | src/net/NetPackage.cpp:12-22 | the fields of a new header; compress and encrypt keep three bits, the sequence flag four |
| Packages.NetPackageHeader.Encode | src/net/NetPackage.cpp:24-49 | the vector grows if it is too short, exactly the twelve header bytes are written at nPos, and m_flag.seq is recomputed |
| Packages.NetPackageHeader.Decode | src/net/NetPackage.cpp:64-93 | the fields are those that the twelve bytes at nPos spell, with length, command and the five bit fields named by their bytes |
| Packages.NetPackage.Encode | src/net/NetPackage.cpp:100-117 | header and content are written at nPos and nothing else changes; the header's length is set first |
| Packages.NetPackage.Decode | src/net/NetPackage.cpp:134-146 | header and content are those of the pkgLength bytes at nPos |
| Packages.EncodeThenDecode | src/net/NetPackage.cpp:100-146 | at any offset, decoding what was encoded gives the packet, and bytes outside the written range are unchanged |
| Framing.LookMeaning | src/net/NetPackageParser.cpp:128-150 | with n the number that the first four bytes spell: fewer than 12 bytes decide nothing; n below 12 or above 512 MB is invalid; otherwise a packet of n bytes is whole if and only if n bytes are there |
| Framing.FrameMeaning | src/net/NetPackageParser.cpp:128-150 | the byte strings delivered as one packet are those of 12 bytes to 512 MB that begin with their own length |
| Framing.DrainAppend | src/net/NetPackageParser.cpp:126-164 | draining a stream in two instalments is draining it at once, unless the first one already reset the parser |
| Framing.DrainConserves | src/net/NetPackageParser.cpp:126-164 | the packets handed out followed by the residue are the stream: nothing is lost or invented |
| Framing.DrainLeavesPartial | src/net/NetPackageParser.cpp:126-164 | what remains holds no complete packet, and a reset leaves nothing |
| Framing.ChunkingIndependence | src/net/NetManager.cpp:49-67 | for every stream that is not invalid and every split into reads, feeding and draining chunk by chunk delivers what a single feed delivers and leaves the same residue |
| Framing.FirstReset | src/net/NetPackageParser.cpp:136-145 | an invalid stream is noticed while draining the first chunk that reveals it, with the packets of the uncut stream delivered |
| Framing.BadStream | src/net/NetPackageParser.cpp:136-145 | good packets followed by a length field below 12 or above 512 MB: every chunking delivers exactly the good packets before the reset, in the chunk that completes the bad header, and the parser is left empty |
| Framing.ResetPoint | src/net/NetPackageParser.cpp:128-145 | a prefix of such a stream resets the parser if and only if it contains the whole bad header |
| Framing.DrainStream | src/net/NetPackageParser.cpp:147-155 | whole packets at the front of a stream are delivered in order whatever follows |
| Framing.DrainCut | src/net/NetPackageParser.cpp:126-164 | a stream of packets cut anywhere delivers exactly the complete ones, keeps the rest and never resets |
| Framing.CompleteIsMaximal | src/net/NetPackageParser.cpp:147-155 | the number of packets delivered is the largest whose bytes fit |
| Framing.PackageIsFrame | src/net/NetPackage.h:13-14 | an encoded packet is delivered whole if and only if its length does not exceed 512 MB |
| PackageParser.NetPackageParser.constructor | src/net/NetPackageParser.cpp:14-18 | a new parser is empty and has 64 KB of storage |
| PackageParser.NetPackageParser.Reset | src/net/NetPackageParser.cpp:20-24 | reset empties the parser |
| PackageParser.NetPackageParser.Ajust | src/net/NetPackageParser.cpp:26-38 | the unread bytes move to the front of the buffer unchanged |
| PackageParser.NetPackageParser.FeedPack | src/net/NetPackageParser.cpp:111-123 | the unread bytes are followed by the new ones; the buffer grows by their number if they do not fit |
| PackageParser.NetPackageParser.NextPackage | src/net/NetPackageParser.cpp:126-164 | the three outcomes exactly, with their conditions on the buffered bytes: a packet with its slice of the untouched buffer, a reset, or nothing with the unread bytes moved to index 0 |
| PackageParser.NetManager.DispatchNext | src/net/NetManager.cpp:52-66 | one turn of the loop hands on the next complete packet, if there is one |
| PackageParser.NetManager.DispatchComplete | src/net/NetManager.cpp:52-66 | the turns of the loop that find a packet hand on exactly the complete packets, in order; then none is complete, the parser's array has not been written, and every slice handed to the handler still reads as the content of its packet |
| PackageParser.NetManager.OnDataReceived | src/net/NetManager.cpp:49-67 | feeding and the whole loop, with the last call that returns false: the loop terminates, dispatches exactly the packets of the buffered bytes and the new ones in order, and ends with index 0 and no complete packet |
| PackageParser.FeedChunks | src/net/NetManager.cpp:49-67 | a real manager and parser fed any list of reads deliver and keep what FeedAll says, so ChunkingIndependence and BadStream hold of the objects |
| Connection.NetConnection.constructor | src/net/NetConnection.cpp:49-69 | the initial state, with intervals of 600 and 5 seconds |
| Connection.NetConnection.Start | src/net/NetConnection.cpp:73-77 | the session is up and both times are now |
| Connection.NetConnection.HandOverWaiting | src/net/NetConnection.cpp:326-335 | the buffers swap and one write of all waiting bytes starts; the precondition of AsyncWrite proves that none is outstanding |
| Connection.NetConnection.ControlMemory | src/net/NetConnection.cpp:380-390 | the average is updated and the idle buffer is halved when the rule says so, losing no byte |
| Connection.NetConnection.DoSendData | src/net/NetConnection.cpp:317-335 | a write of everything that waits, or idle |
| Connection.NetConnection.EnqueueBytes | src/net/NetConnection.cpp:222-246 | the bytes are appended, after growing the buffer to the capacity of the model |
| Connection.NetConnection.SendDataAsync | src/net/NetConnection.cpp:212-265 | succeeds if and only if connected and, unless there is nothing to send, what waits and the new bytes make no more than 64 MB; drops what waits on overflow, else queues the bytes and starts a write if none is outstanding; the array in flight is neither written nor replaced |
| Connection.NetConnection.SendData | src/net/NetConnection.cpp:182-187 | queues the bytes of the packet, or refuses and drops as sendDataAsync does |
| Connection.NetConnection.DoClose | src/net/NetConnection.cpp:98-138 | not connected, nothing waits, not sending |
| Connection.NetConnection.HandleConnectionError | src/net/NetConnection.cpp:393-406 | a connected session is closed and the manager notified once; otherwise nothing |
| Connection.NetConnection.HandleSendData | src/net/NetConnection.cpp:299-315 | a completed write starts the next or goes idle; a failed one ends the session |
| Connection.NetConnection.HandleRecvData | src/net/NetConnection.cpp:273-297 | the receive time is updated and the packets completed by the bytes read are dispatched |
| Connection.NetConnection.KeepAliveBytes | src/net/NetConnection.cpp:498-503 | the sixteen bytes of a keep-alive packet |
| Connection.NetConnection.DoSendKeepAlive | src/net/NetConnection.cpp:490-512 | a keep-alive packet is offered to the send path exactly when more than the interval has passed since the last completed write |
| Connection.NetConnection.DoTimeoutCheck | src/net/NetConnection.cpp:519-535 | fails the connection exactly when the interval has passed since the last receipt, and re-arms otherwise |
| SendModel.KeepAliveOnWire | src/net/NetConnection.cpp:498-504 | the sixteen bytes of a keep-alive, one by one; it is one whole packet and is received as it was built |
| SendRuns.GrowthIsLeast | src/net/NetConnection.cpp:232-242 | growth picks the least size 64K * 2^k that fits, never above 64 MB |
| SendRuns.ShrinkKeeps | src/net/NetConnection.cpp:380-390 | shrinking halves, keeps the form 64K * 2^k, and leaves 256 KB or more (the condition asks for 128 KB only) and more than twice the average write |
| SendRuns.WriteEconomizes | src/net/NetConnection.cpp:324-390 | a write takes all that waits and the buffers change places; the average moves by a fiftieth towards its size; the idle buffer is halved if and only if the average is above 64 KB and below a quarter of a size above 128 KB |
| SendRuns.AcceptGrows | src/net/NetConnection.cpp:222-251 | what is accepted is appended, after the buffer has grown if and only if it is too small, and goes out at once if no write is out |
| SendRuns.EveryRun | src/net/NetConnection.cpp:212-391 | over every run both capacities are 0 or 64K * 2^k with k <= 10 and hold what they must, m_bSending holds exactly while a write is outstanding, and nothing waits without one |
| SendRuns.SendIsPut | src/net/NetConnection.cpp:232-251 | an accepted send puts its bytes at the end of a FIFO queue |
| SendRuns.StepRefinesQueue | src/net/NetConnection.cpp:212-391 | every step of the swapping double buffer is a step of a simple FIFO queue: put, take, or nothing |
| SendRuns.OverflowDropsWaiting | src/net/NetConnection.cpp:222-230 | an overflow drops exactly the waiting bytes; the write in flight is untouched |
| SendRuns.RunConserves | src/net/NetConnection.cpp:212-391 | over every run without overflow or close: bytes taken by the transport, then those in flight, then those waiting, are the bytes accepted, in order |
| SendRuns.TwoCompletionsReachIdle | src/net/NetConnection.cpp:299-335 | with no new sends, one completion reaches idle if nothing waits and two if something does, with every byte written |
| SendRuns.EveryRunAverages | src/net/NetConnection.cpp:381 | over every run m_sendAveSize lies between the shortest and the longest write so far |
| SendRuns.ClosedStaysClosed | src/net/NetConnection.cpp:98-138 | after a close no event reconnects, starts a write or notifies the manager |
| SendRuns.NotifiedAtMostOnce | src/net/NetConnection.cpp:393-406 | over every run of a started session the manager is notified of an error at most once, and only if the session is over |
| Messages.TraceStepKeeps | src/net/NetConnection.cpp:212-391 | every step keeps: waiting bytes and bytes handed to async_write are those of whole messages; every accepted message was handed over, waits or was dropped, in order; and a step drops messages exactly when it overflows, or ends the session, while something waits, and then all that waits |
| Messages.LostExactlyWhen | src/net/NetConnection.cpp:212-391 | over every run: handed and waiting messages are the accepted ones if and only if no step overflows, or ends the session, while something waits; the handed ones are the accepted ones in place, a prefix, if and only if no write starts behind the first such step |
| Messages.TakenExactly | src/net/NetConnection.cpp:222-251 | in every reachable state of a connected session a message is taken if and only if its length and that of the messages that wait make no more than 64 MB; otherwise all that waits is dropped |
| Messages.RefusesExactly | src/net/NetConnection.cpp:222-230 | a run refuses nothing if and only if what waits and what is offered never make more than 64 MB |
| Messages.OverflowLosesAMessage | src/net/NetConnection.cpp:222-230 | a run on which an overflow drops a message and one accepted later still goes out, before the posted error is handled |
| Messages.RefusalIsFinal | src/net/NetConnection.cpp:222-230 | when a refusal comes while a write is unfinished, and the posted error therefore runs before its completion, nothing more is ever handed to async_write |
| Transport.EndToEnd | src/net/NetConnection.cpp:182-335 | in every reachable state, for every interleaving and every cutting of reads: the parser was never reset; the packets delivered are accepted ones in order, and the first ones if and only if no more were delivered than were handed over before a drop; once nothing waits, is in flight or unread they are all but the dropped ones, hence all if and only if no step overflowed, or ended the session, while something waited |
| Transport.HandedBytesAreFramed | src/net/NetConnection.cpp:222-246 | over any run, even past overflows and close, the buffers handed to async_write concatenate to whole packets |
| Transport.EverythingArrives | src/net/NetConnection.cpp:299-335 | from every reachable state of a sender that is connected and was never offered more than fits 64 MB, a continuation of completions and reads alone delivers every packet accepted so far |
| Link.Perform | src/net/NetConnection.cpp:273-535 | the handlers of the class take the steps of the model |
| Link.Link.Read | src/net/NetConnection.cpp:273-291 | reading a piece of the wire delivers what the model delivers |
| Link.Link.Run | src/net/NetConnection.cpp:182-535 | two connection objects driven through any possible sequence of events end in the model's state |
| Link.Drive | src/net/NetManager.cpp:49-67 | the packets a real manager object was given relate to those accepted as in EndToEnd, under the same condition |
| Timers.TimeoutBound | src/net/NetConnection.cpp:519-535 | with handlers run at expiry: a connection that is up received something less than 2T ago, and a check that ends it finds at least T and less than 2T passed in whole seconds |
| Timers.SilenceCloses | src/net/NetConnection.cpp:519-535 | if nothing more arrives, at most two expiries end the session |
| Timers.EarlyExactly | src/net/NetConnection.cpp:519-535 | in every reachable state, a check that ends the session finds less than T seconds of silence if and only if exactly T whole seconds have passed and the last receipt came at a larger fraction of a second than the start |
| Timers.EarlyByAFraction | src/net/NetConnection.cpp:523-524 | a run that shows it: a session that ends after T - 0.9 seconds of silence |
| PeerTimers.KeptUpExactly | src/net/NetConnection.cpp:490-535 | keep-alive timer of one peer against timeout timer of the other, with handlers run at expiry, writes that complete at once and delivery within d: the receiver is never timed out, in any run, if and only if 2K + 1 + d <= T |
| Base64.Base64.Init | src/net/base64.c:45-70 | succeeds if and only if there are 64 characters and they and the padding, the 65th character or =, are all different; then the table is the inverse of the alphabet |
| Base64.Base64.Encode | src/net/base64.c:72-128 | writes exactly the defined text and a NUL, and nothing behind it |
| Base64.BodyStep | src/net/base64.c:88-99 | the count modulo 77 finds the ends of the lines of 76 |
| Base64.PackStep | src/net/base64.c:163-183 | the four states of the decoder pack digits as the definition does |
| Base64.LastTest | src/net/base64.c:186 | the final condition on n and r is the canonical-bits rule |
| Base64.Base64.SkipCharacters | src/net/base64.c:147-156 | the skipping loops, which run to the first character not to be skipped and do not look at the length |
| Base64.Base64.Decode | src/net/base64.c:130-192 | the bytes of the digits read, or the number of characters consumed, negated |
| Base64Spec.PackSextets | src/net/base64.c:88-124 | every byte string is recovered from its digits, which are canonical |
| Base64Spec.SextetsPack | src/net/base64.c:163-186 | every canonical digit string is recovered from its bytes |
| Base64Spec.SextetsAt | src/net/base64.c:88-124 | which bits of which bytes each digit holds, and how many digits there are |
| Base64Spec.TextAt | src/net/base64.c:72-128 | every character of the output: each 77th a newline when asked for, the others the digits in order, and behind the last digit only padding |
| Base64Spec.TextPadding | src/net/base64.c:103-124 | padding only follows the unpadded text, with two, one or no characters; without line breaks the length is then a multiple of 4 |
| Base64Spec.TextLength | src/net/base64.h:11 | output length 4*(n/3) + tail + (n/3)/19 newlines; without padding and newlines it is BASE64_LEN(n) |
| Base64Spec.TextLines | src/net/base64.c:97-98 | every line but the last has exactly 76 characters, and the last no more |
| Base64Scan.ScanText | src/net/base64.c:138-161 | in every mode the decoder takes exactly the digits of a readable text and stops without objection |
| Base64Theorems.CanonicalText | src/net/base64.c:130-192 | in every mode, a text of alphabet characters ended by a NUL or by the length decodes if and only if its length mod 4 is not 1 and the unused bits are zero, and then encoding the result without padding gives the text |
| Base64Theorems.RoundTrip | src/net/base64.c:72-192 | every byte string comes back from its encoding, padded or not, in every mode, ended by a NUL, or by the length unless its last character is a line break; with line breaks in the skipping modes, if the alphabet has no newline |
| Base64Verdict.Verdict | src/net/base64.c:130-192 | what every mode makes of every input: the place where reading ends, when the digits before it are accepted, what they decode to, and otherwise how many characters are reported as consumed |
| Base64Verdict.SkippingVerdict | src/net/base64.c:142-161 | with t the text before the first NUL or padding: ignoring all that is not in the alphabet accepts t if and only if its digits are canonical; ignoring space, if and only if besides every stray character directly behind another is tab, newline, VT, FF, CR or space (the very last one is not looked at when the length ends there too); either gives the bytes of the digits, and a rejection reports how far was read |
| Base64Verdict.StrictVerdict | src/net/base64.c:138-192 | what the strict mode makes of every input: acceptance, value, and the number of characters consumed on rejection |
| Base64Verdict.IgnoreSpaceLetsOneThrough | src/net/base64.c:152-158 | ignoring white space skips one stray character of any kind between two digits: accepted if and only if the digits are canonical |
| StringReplace.StringReplace | src/net/strings.cpp:44-59 | equals leftmost non-overlapping replacement |
| StringReplace.StringReplaceChar | src/net/strings.cpp:61-75 | equals replacement of the one-character string |
| StringReplace.FixSqlString | src/net/strings.cpp:161-173 | equals replacing " by \" |
| StringReplace.ReplacedByItself | src/net/strings.cpp:44-59 | replacing a pattern by itself is the identity |
| StringReplace.ReplacedIsGlued | src/net/strings.cpp:44-59 | the string is cut where the pattern begins, leftmost first, and the pieces are glued with the replacement |
| StringReplace.GluedIsReplaced | src/net/strings.cpp:44-59 | any such cutting gives the same result |
| StringReplace.FixSqlIsInvertible | src/net/strings.cpp:161-173 | replacing \" by " in the result gives the content back, for every content |
| BsonQuota.BsonAddQuota | src/net/strings.cpp:77-103 | terminates although the text grows, and equals the map that quotes each unquoted key between a space and its colon |
| BsonQuota.KeyTest | src/net/strings.cpp:85-91 | the condition of the loop finds exactly the keys |
| BsonQuota.QuotedTwice | src/net/strings.cpp:77-103 | quoting is idempotent |
| BsonQuota.QuotedOnlyInserts | src/net/strings.cpp:93-95 | only quotes are inserted, and deleting them gives the input back |
| StringDecrement.GetStringDefOne | src/net/strings.cpp:226-264 | equals the definition by cases |
| StringDecrement.DefOneMeaning | src/net/strings.cpp:226-264 | no digits give the input, all-zero digits give "", and otherwise the result is the one string of the same shape whose digits spell one less |
| StringDecrement.LoweredIsSmaller | src/net/strings.h:62-78 | a decremented result is strictly smaller under compareStr, at a first difference that is named |
| StringDecrement.CompareStrMeaning | src/net/strings.h:62-78 | a shorter string is smaller, and of two strings of one length the one with the smaller character at the first difference |
| StringDecrement.CompareStrIsNumeric | src/net/strings.h:61-78 | on digit strings without leading zeros it is the order of the numbers |
| StringDecrement.CompareStrOrder | src/net/strings.h:62-78 | compareStr is a total order: zero exactly on equal strings, antisymmetric and transitive |
| StringDecrement.LexicographicMeaning | src/net/strings.h:66 | among strings of one length the first difference decides |
| StringDecrement.CountsDown | src/net/strings.cpp:226-264 | from digits that spell D, call k <= D leaves D - k and a smaller string of the same shape, and call D + 1 gives "" |

## Left out

- The cipher branches of `feedData` and `doSendData`: they rest on OpenSSL, and the receiving one does not reassemble records as written.
- `sendDataSync`, `recvDataSync` and their mixture with asynchronous sends, which the header advises against.
- Exceptions of the I/O library, allocation failure, sockets, name resolution, SSL, proxies and the accept loops.
- The connection pool of `NetManager` and what timers do after a close: a queued keep-alive handler re-arms after a close, so silence is not a property of the code.
- `Cipher.cpp`, the compression wrappers, `stream.cpp` and `gbk2utf8`: foreign calls or easy members.
- Floating point: the growth expression is modelled as the least power-of-two multiple and the average as (98a + 2b) / 100, both exact.
- The literal tables at src/net/base64.c:6-42 have no entries for bytes 0xF0 to 0xFF; the model uses tables built by `base64_init`.
- SendDataAsync: requires len + m_waitingPos to fit r_int32, because that signed sum is undefined beyond; packet sizes beyond r_int32 are left out with it.
- SendData: carries the same bound, for the same reason.
- Moved: fills new storage with zeros, where malloc and realloc leave it arbitrary; no contract reads those bytes.
- Ajust: moves the bytes as if the ranges did not overlap harmfully; the source calls memcpy on overlapping ranges.
- Start: requires a connection that has had no session, as every caller creates a new one.
- StringReplace: requires a non-empty pattern, because the source loops for ever on an empty one.
- Decode: requires len to be at most the input's length, since the length -1 that the source's own example passes wraps the end pointer, and that no run of skipped characters is still open where the input ends, since the decoder would read on behind it.
- NetPackage.Encode: requires the end position to fit r_int32, its return type.
- KeptUpExactly: the receiver's session starts no earlier than the sender's and within one keep-alive interval of it; a refused send, which ends the sender's session, is not among its events.
- TimeoutBound: assumes that timer handlers run at expiry, and an interval above zero, which is the guard for starting the timer.
- GetStringDefOne: models the index as an unbounded integer, so strings beyond r_int32 characters are not covered.
