# IMLP/1, verified

A Dafny model of the IMLP/1 stack below its command line: the frame codec with its CRC-32, the memory map,
the simulator server, the loopback transport with its fault script and packet trace, and the client with
its bounded read retries. `dafny verify dfyconfig.toml` checks everything.

Functions on values say what each operation computes; the objects that the program updates in place
(`MemoryMap`, `MemoryServer`, `LoopbackTransport`, `Client`) are classes whose methods keep the program's
loops and assignments and are proved equal to those functions. The transport holds a reference to its
server and the client one to its transport, and their methods' frames say what each call may change.

## Main results

- **The checksum.** The bit-by-bit loop is the table-driven `update_crc` of section 8 of RFC 1952, it can be
  continued over a second buffer, and it is affine over exclusive or. Two different messages of one length that
  agree outside 32 consecutive bits (in the order in which bits enter the register) never share a checksum.
- **Corrupted frames.** Damage confined to 32 consecutive bits of the checked part, or to four consecutive
  octets before or inside the checksum field, is always rejected. Four consecutive octets that straddle the
  two are rejected with exactly one exception: `61 d8` exclusive-ored onto the last two checked octets
  together with `f4 ee` onto the first two of the checksum. `FourOctetCorruption` states when a corrupted
  frame is accepted, in both directions, and `AcceptedCorruption` gives an accepted one. The exception comes
  from sending a reflected checksum in big-endian order. Any two changed bits, however far apart and on either
  side of the checksum, are always rejected: within the length of a frame the shifts of the register never
  take a single bit back to a single bit.
- **Canonical wire form.** The decoder accepts exactly the image of the encoder and inverts it. Both refuse with
  exactly the first rule that is broken, in lists of rules written on the fields and octets themselves, and
  octets that break none are read as the big-endian numbers they spell.
- **The server over whole runs.** No sequence of byte strings changes an octet outside the allowlist and
  `0x0100..0x07ff`. At every point the memory is the overlay of the acknowledged writes, where acknowledged
  means that the response bytes decode to an acknowledgement; where none has been written a read finds the
  octets of a fresh map. Every decodable request gets a correlated response, whose opcode, status, payload
  and event are told from the request, the policy and the regions, and the branch for a response that cannot
  be encoded is not reachable.
- **The trace.** Records are numbered from 1 without gaps over the life of a transport, across clearing; the
  odd ones are the requests, byte for byte. A trace that was never cleared rebuilds the server's memory,
  both from its `write_ok` outcomes, each of which follows a request that decodes to a write inside the map,
  and by handling its surviving requests again on a fresh server. What an exchange records and replies is told
  from the deadline, the next fault and the request, and faults are met first in, first out.
- **The client over any transport.** The replies of the transport, one by one, decide the result, every counter
  and the transport's last state. A new client makes at most as many attempts as it was given, or 1 for 0, and
  all of them when every reply is lost. Counters balance, request IDs follow `n mod (2^32 - 1) + 1`, and the
  return after the retry loop is dead code. Bad arguments are refused without a call on the transport. An
  operation succeeds with given data exactly when its arguments are valid and the first octets that the
  transport delivers for the encoded request are the one encoding of the matching response with these data.
  The client cannot tell transports apart that answer alike.
- **The stack end to end.** The exact course of every read and write is stated for every state and every fault
  script. It follows that the stack refines an array of octets: each report is true of the array, reads
  return its current octets, and the writes that the server performed are exactly the write commands whose
  reports say so, each once and in order.
- **Whole runs with clearing.** No deadline ever expires in the trace of a client's run. Clearing the trace
  changes no report, counter or octet, so the numbering, the two reconstructions of the memory and the
  at-most-once property are stated for every run on its full history, that of the same run without clearing.

Where code and documentation differ, the model follows the code. The protocol document limits the length in
a read request to 1..256, but the codec accepts any two octets (`AnyRequestedLength`) and the server answers
`out_of_range`; error responses, and only they, carry any status but `ok`, named or not (`AnyErrorStatus`,
`DecodedStatus`). So opcodes are any octet and statuses any 16-bit word.

Two lemmas about fixed inputs illustrate the model: `PublishedFrame` gives the frame that the protocol document
publishes, and `InitialReads` what a fresh map reads as.

## Files

| file | content |
|---|---|
| `Words.dfy`, `Frames.dfy` | octets of words and their numeric values; frames, limits and error categories |
| `Crc.dfy`, `Bursts.dfy` | the checksum and its algebra; what it cannot miss |
| `Codec.dfy`, `Rejections.dfy` | encoding and decoding; what they refuse, and why |
| `TestVector.dfy`, `Hex.dfy` | the published example; hexadecimal text |
| `Corruption.dfy` | frames corrupted in 32 consecutive bits or four octets |
| `ShiftOrder.dfy`, `TwoBits.dfy` | the order of the register's shift; frames corrupted in two bits |
| `Memory.dfy`, `Server.dfy` | the memory map; the server, its policy and its runs |
| `Transport.dfy` | the loopback transport, its trace and its runs |
| `Client.dfy`, `AnyTransport.dfy` | the client; its counters and IDs over any transport |
| `Courses.dfy` | the exact course of an operation over any transport, and what a success means |
| `EndToEnd.dfy`, `ClientRuns.dfy` | client, transport and server together; whole runs read off the trace |

## Model

| member | source | states |
|---|---|---|
| Crc.ComputeCrc32 | src/codec.cpp:96-106 | the nested loops compute the specified checksum of every byte string |
| Crc.ShiftOctet | src/codec.cpp:100-103 | the inner loop is eight register shifts |
| Crc.MatchesRfc1952 | src/codec.cpp:96-106 | the checksum is that of the table-driven sample code in section 8 of RFC 1952 |
| Crc.Incremental | src/codec.cpp:96-106 | updating the checksum of a with b gives the checksum of a followed by b |
| Crc.Affine | src/codec.cpp:97-105 | the checksum is affine over exclusive or of equal-length messages |
| Bursts.ThirtyTwoBitBurst | src/codec.cpp:96-106 | equal-length messages that agree outside 32 consecutive bits have equal checksums only if they are equal |
| Bursts.FourOctetBurst | src/codec.cpp:96-106 | the same for a window of four octets |
| Codec.Layout | src/codec.cpp:114-125 | every field of an encoded frame lies at its offset, big-endian |
| Codec.EncodeFrame | src/codec.cpp:108-128 | the growing buffer ends as the specified octets, or the first failing rule is reported |
| Codec.DecodeWire | src/codec.cpp:130-171 | every frame that encodes decodes to itself, consuming all octets |
| Codec.WireOfDecoded | src/codec.cpp:130-171 | every accepted byte string is the encoding of the frame it decodes to |
| Codec.Canonical | src/codec.cpp:108-171 | decoding gives a frame exactly when that frame encodes to these octets |
| Codec.CutShort | src/codec.cpp:131-150 | every proper prefix of an encoded frame is rejected as truncated |
| Codec.TrailingOctets | src/codec.cpp:149-151 | octets after a frame are rejected, and the size of the frame alone is reported |
| Codec.ChangedChecksum | src/codec.cpp:153-156 | a frame changed only in its checksum field is rejected for its checksum |
| Rejections.SemanticsAreLawful | src/codec.cpp:65-84 | the semantic rules are a table of five lines in opcode, flags, status and payload size |
| Rejections.EncodeRefusals | src/codec.cpp:109-112 | encoding is refused with exactly the first of four rules that the frame breaks |
| Rejections.DecodeRejections | src/codec.cpp:131-169 | decoding is refused with exactly the first of eleven rules that the octets break, and the size that goes with it |
| Rejections.DecodeAccepts | src/codec.cpp:131-170 | octets that break no rule, and no others, are accepted as the frame whose numbers they spell |
| Rejections.WireSpells | src/codec.cpp:114-127 | the encoding of a frame spells its fields as big-endian numbers at their places, with the checksum last |
| Codec.AnyRequestedLength | src/codec.cpp:73-75 | a read request encodes exactly when its payload is two octets, whatever length they give |
| Codec.AnyErrorStatus | src/codec.cpp:65-84 | a frame with a status other than ok encodes exactly as an error response, named status or not |
| Codec.DecodedStatus | src/codec.cpp:158-169 | a decoded frame has a status other than ok exactly when it is an error response |
| TestVector.PublishedFrame | src/codec.cpp:108-171 | the published request encodes to the published octets and decodes back |
| Corruption.ThirtyTwoBitCorruption | src/codec.cpp:130-171 | damage within 32 consecutive checked bits is rejected |
| Corruption.OneSidedCorruption | src/codec.cpp:130-171 | damage within four octets wholly before or wholly inside the checksum field is rejected |
| Corruption.FourOctetCorruption | src/codec.cpp:130-171 | damage within any four consecutive octets is accepted exactly for one pattern on frames that survive it |
| Corruption.LookalikeAccepted | src/codec.cpp:65-84 | that pattern is accepted exactly when the semantic rules still hold |
| Corruption.AcceptedCorruption | src/codec.cpp:153-170 | a concrete damaged request that is accepted |
| ShiftOrder.NoSingleBit | src/codec.cpp:100-103 | fewer than 2193 shifts never take the lowest bit to zero or to any single bit again |
| TwoBits.TwoBitCorruption | src/codec.cpp:130-171 | damage in any two bits of a frame, covered octets or checksum, is rejected |
| Hex.FormatHex | src/codec.cpp:201-212 | the loop writes the specified text |
| Hex.ParseHex | src/codec.cpp:214-225 | the loop reads the specified octets or refuses |
| Hex.HexDigitsAt | src/codec.cpp:202-210 | each octet is written as the digit of its quotient by 16 and then that of its remainder |
| Hex.HexRoundTrip | src/codec.cpp:201-225 | text of at most 278 octets reads back, longer text is refused |
| Hex.AcceptedHex | src/codec.cpp:87-92 | accepted texts are exactly the even-length hexadecimal texts up to 556 characters; written again they are in lower case |
| Memory.RangeFits | src/memory_map.cpp:18-22 | the overflow-free check is containment of a non-empty range in the map |
| Memory.ReadSucceeds | src/memory_map.cpp:34-47 | reads succeed exactly for 1 to 256 octets below 0x800, with those octets; when access is denied or the range is refused, with none |
| Memory.WriteSucceeds | src/memory_map.cpp:49-58 | writes succeed exactly for 1 to 256 octets inside 0x100..0x7ff; when access is denied or the range is refused |
| Memory.MemoryMap.constructor | src/memory_map.cpp:26-32 | the 33 codes of the identity text, 1 at 0x40 and 0 at every other address |
| Memory.InitialIsFresh | include/imlp/memory_map.hpp:50-50 | the same of the specification's initial contents, address by address |
| Memory.InitialReads | src/memory_map.cpp:26-32 | the first reads of a fresh map give the identity text and the version |
| Memory.MemoryMap.Read | src/memory_map.cpp:34-47 | the per-octet loop decides readability of the whole range and the slice is returned |
| Memory.MemoryMap.Write | src/memory_map.cpp:49-61 | the whole range is overlaid, or nothing changes |
| Server.MemoryServer.constructor | src/server.cpp:33-33 | the given policy and a fresh memory |
| Server.WriteIsAllowed | src/server.cpp:78-85 | the 64-bit check holds exactly when the range is non-empty and each of its addresses is in the allowlist |
| Server.BuildTextPayload | src/server.cpp:21-29 | the loop gives the codes of the first 256 characters of the text |
| Server.MemoryServer.Handle | src/server.cpp:35-76 | new memory and result are those of the specification function |
| Server.MemoryServer.Respond | src/server.cpp:87-112 | the response is the encoding of the correlated frame |
| Server.EveryRequestAnswered | src/server.cpp:45-112 | every decodable request gets a decodable, correlated response that agrees with the event; encoding never fails |
| Server.ResponseStatus | src/server.cpp:45-76 | the status on the wire, exactly, from the request, the policy and the regions |
| Server.ResponseContent | src/server.cpp:45-112 | opcode, payload octet by octet and event, exactly, from the request, the policy, the regions and the memory |
| Server.UndecodableIgnored | src/server.cpp:35-43 | no response exactly for undecodable input, which changes nothing and whose event keeps the reason |
| Server.RegionSafety | src/server.cpp:35-76 | over all runs, octets outside the allowlist and 0x0100..0x07ff keep their values |
| Server.DisabledWrites | src/server.cpp:57-61 | over all runs with writes disabled the whole memory keeps its value |
| Server.DefaultIsReadOnly | include/imlp/server.hpp:20-26 | no run under the default policy changes any octet |
| Server.DefaultAllowlist | include/imlp/server.hpp:22-26 | with writes enabled the default allowlist admits exactly what the map admits |
| Server.StepIsAcknowledged | src/server.cpp:57-72 | a write is applied as a whole exactly when its response is an acknowledgement, and that exactly when policy and map admit it |
| Server.MemoryIsFoldOfAcknowledged | src/memory_map.cpp:34-61 | over all runs each address holds the octet of the last acknowledged write covering it |
| Server.ReadSeesAcknowledged | src/server.cpp:45-55 | a read is answered with data exactly when admitted, and with what the acknowledged writes left |
| Server.UnwrittenReads | src/memory_map.cpp:26-47 | over all runs from a fresh memory a read finds the fresh octet wherever no acknowledged write has been |
| Transport.LoopbackTransport.constructor | include/imlp/transport.hpp:90-94 | not connected, no fault queued, no record, numbering from 1 |
| Transport.NewTransport | src/transport.cpp:28-68 | a new transport exchanges nothing until connected, and then its first exchange undistorted |
| Transport.LoopbackTransport.Exchange | src/transport.cpp:28-68 | new state of transport and server and the reply are those of the specification function |
| Transport.LoopbackTransport.ApplyFault | src/transport.cpp:52-63 | the response is distorted in place as the fault says |
| Transport.LoopbackTransport.Record | src/transport.cpp:76-82 | a record with the next sequence number is appended |
| Transport.LoopbackTransport.Connect | src/transport.cpp:19-22 | connects and always succeeds |
| Transport.LoopbackTransport.Close | src/transport.cpp:24-24 | disconnects and changes nothing else |
| Transport.LoopbackTransport.PushFault | src/transport.cpp:70-70 | queues a fault at the end |
| Transport.LoopbackTransport.ClearTrace | src/transport.cpp:74-74 | forgets the records and keeps the numbering |
| Transport.DistortedResponse | src/transport.cpp:52-63 | truncated, corrupted and renumbered responses are each told apart when decoded, also when the ID wraps |
| Transport.DistortedOctets | src/transport.cpp:52-63 | which octets each fault changes, and how |
| Transport.ExchangeOutcome | src/transport.cpp:30-67 | the recorded outcome, exactly, from deadline, next fault and request, and the reply, octets and connection that go with each |
| Transport.ExchangeDelivers | src/transport.cpp:50-67 | what is delivered: nothing for an undecodable request, else the response as the fault leaves it |
| Transport.FaultsConserved | src/transport.cpp:37-70 | over every run faults are met in the order in which they were queued, each once |
| Transport.ExchangeFacts | src/transport.cpp:28-68 | two records, request first, at most one fault used up; nothing on a closed connection |
| Transport.RunAppendsExchanges | src/transport.cpp:28-82 | a run appends the numbered exchanges of exactly the requests it puts on the wire |
| Transport.ClearingKeepsNumbering | src/transport.cpp:74-82 | clearing forgets records and changes nothing else |
| Transport.TraceNumbering | src/transport.cpp:28-82 | over a transport's life records are numbered from 1, odd ones being the requests byte for byte |
| Transport.TraceReplay | src/transport.cpp:28-82 | a trace never cleared rebuilds the memory by its write_ok outcomes, each a real write inside the map, and by handling its requests again |
| Client.Client.constructor | src/client.cpp:18-21 | zero counters, first ID 1, the given bound on attempts or 1 where it is 0 |
| Client.Client.Read | src/client.cpp:23-42 | state of client, transport and server and the result are those of the specification function |
| Client.Client.Write | src/client.cpp:44-61 | state of client, transport and server and the result are those of the specification function |
| Client.Client.AllocateRequestId | src/client.cpp:63-67 | hands out the ID and steps to the next, skipping zero |
| Client.Client.DoRead | src/client.cpp:69-113 | the retry loop is the specification function's recursion |
| Client.Client.DoAttempt | src/client.cpp:79-107 | one turn of the loop: reconnect, exchange, count, close, retry or report |
| Client.Client.DoWrite | src/client.cpp:115-142 | one attempt, never retried |
| Client.Client.DoValidate | src/client.cpp:144-188 | the ordered checks on a response and the counter they move |
| Client.Client.DoEnsureConnected | src/client.cpp:190-194 | connects and counts only when not connected |
| AnyTransport.ReadBooks | src/client.cpp:23-113 | over any transport: how a read moves the counters, its ID, its bound on attempts; bad arguments leave the transport alone; the return after the loop is not reached |
| AnyTransport.WriteBooks | src/client.cpp:44-142 | over any transport: how a write moves the counters; no retry, at most one attempt; bad arguments leave the transport alone |
| AnyTransport.MetricsConserved | src/client.cpp:23-194 | over any transport and run the counters balance against the results |
| AnyTransport.RequestIds | src/client.cpp:63-67 | the n-th operation uses n mod (2^32 - 1) + 1: never zero, distinct within 2^32 - 1 operations |
| Courses.Verdict | src/client.cpp:144-188 | which of five ways delivered octets are reported, exactly, with status, data, detail and the counter |
| Courses.ReadCourse | src/client.cpp:69-113 | over any transport: the replies decide the result, every counter and the transport's state after a valid read |
| Courses.WriteCourse | src/client.cpp:115-142 | the same for a valid write, which is a course of one attempt |
| Courses.NewClientRead | src/client.cpp:18-113 | over any transport: a new client attempts a read as often as it was made to, or once where that is 0, and counts from zero |
| Courses.RefusedCallsNothing | src/client.cpp:27-53 | over any transport: bad arguments make no connect, close or exchange |
| Courses.ReadRequestOctets | src/client.cpp:33-40 | the octets of a read request on the wire, as numbers |
| Courses.WriteRequestOctets | src/client.cpp:54-59 | the octets of a write request on the wire, as numbers |
| Courses.SuccessIsExactResponse | src/client.cpp:144-188 | a reply succeeds with given data exactly when it is the one encoding of the matching response with these data |
| Courses.ReadSuccess | src/client.cpp:23-113 | over any transport: a read succeeds with given data exactly when the first octets delivered for its encoded request are that encoding |
| Courses.WriteSuccess | src/client.cpp:44-142 | over any transport: a write succeeds exactly when its one exchange delivers the encoding of the matching acknowledgement |
| AnyTransport.ReadAlike | src/client.cpp:69-113 | over transports that answer alike a read gives the same result and counters |
| AnyTransport.WriteAlike | src/client.cpp:115-142 | over transports that answer alike a write gives the same result and counters |
| EndToEnd.ExactRead | src/client.cpp:69-113 | counters, faults used, connection, trace and result of every valid read under every fault script |
| EndToEnd.NewClientRetries | src/client.cpp:18-113 | a client made with a bound makes min(k + 1, N) exchanges under k losses and fails exactly when k >= N, N being the bound or 1 |
| EndToEnd.ExactWrite | src/client.cpp:115-142 | the same for every valid write: one exchange, applied exactly when it reached the server and is admitted |
| EndToEnd.FaultClassification | src/transport.cpp:50-67 | the fault that meets the response decides the reported error and its detail |
| EndToEnd.StepRefines | src/client.cpp:69-188 | each command is a step of an octet array and its report is true of the array; three errors are never returned |
| EndToEnd.Refinement | src/client.cpp:69-188 | the same over every sequence of commands and every fault script |
| ClientRuns.NoDeadlineExpires | src/client.cpp:27-49 | no run of the client, clearing or not, puts an expired deadline on the trace |
| ClientRuns.ClearingChangesNothing | src/transport.cpp:74-74 | over every run clearing forgets records and changes no report, counter, fault or octet |
| ClientRuns.ClientTrace | src/transport.cpp:28-82 | the full history of every run of a client is numbered from 1, rebuilds the memory in both ways and has no expired deadline; the trace is its end |
| ClientRuns.AtMostOnce | src/client.cpp:115-142 | over every run the writes the server performed are exactly the commands reported as applied, each once and in order |

## Left out

- Client.Client: its transport is the loopback class; that any other transport may stand behind it is captured by the specification functions, which take the interface as a record of functions and on which the any-transport results are proved.
- Transport.LoopbackTransport.Exchange: the outcome and detail texts are enumerations that keep every distinction the trace makes.
- Corruption.FourOctetCorruption: says nothing of three or more damaged bits spread wider than four octets, of changed lengths other than cutting and extending, or of deliberate forgery.
- Name tables for errors and statuses are constant text and are not modelled.
- Time: a deadline is an integer of which only the sign matters, as in the program.
- Wrap-around of the 64-bit counters and of the trace sequence; these are unbounded. The 32-bit request ID wraps as in the program.
- Allocation failure, move semantics and threads.
- The command line, benchmark, fuzzer, tests and scripts.
