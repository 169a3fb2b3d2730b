# Verified models of three network programs

This project models, in Dafny, the stateful parts of three C programs: an HTTP proxy's
request parser, a router's ARP cache, SHA-1 and checksum code, and the mysocket layer that
carries a simple transport protocol over TCP. Each class or method follows one C function;
each module ending in `Spec` or `Runs`, and `Channel`, states what the functions mean or what
holds over every run of them.

| modules | what they model |
|---|---|
| Options, Bytes, Words | missing values, octets, and 32-bit words with wrap-around and bitwise operators on integers |
| Sha1Spec, Sha1 | the streaming SHA-1 context refines FIPS PUB 180-1 |
| Sha1Bits, MachineWords, Sha1Example | what SHA-1 does to each bit, words as 32-bit vectors, and the example of the standard |
| InternetChecksum, RouterChecksum, TcpSum | two implementations of the checksum of RFC 1071 |
| PacketQueue, DescriptorTable, MysockContext, StreamRuns | packet queues, descriptors, reading, writing, closing |
| Framing, NetworkSend, Channel | packets over a byte stream with short reads and writes, end to end |
| ListenQueue, AcceptRuns | the backlog of a listening mysocket, and all runs of it |
| HashTable | the chained hash table |
| ArpSpec, ArpCache, ArpRuns | the ARP cache with its request queue, and all runs of it |
| HeaderSpec, CStrings, ProxySpec | what header table, C strings, parser and printer mean |
| ProxyParse | the parsed request as the library keeps it, in place |
| ProxyHeaders | what reading headers leaves behind, and which lists come back |
| ProxyRoundTrip, ProxyAccepted | parsing and printing undo each other, and exactly when |
| ProxyOverread | exactly when the parser reads behind its buffers |
| ProxyVerdict, ProxyOutcome, ProxyExample | exactly which lines are refused, what every call comes to, and an example |

`dafny verify dfyconfig.toml` checks the whole project.

## How the code is read

- Words of SHA-1 and checksums are integers below 2^32 or 2^16, and every operation that wraps
  says so. Bitwise operators are defined on integers, and proved to act bit by bit and to be those of
  32-bit vectors.
- A linked list is a class of nodes with a ghost sequence of the nodes in its owner.
- Every locked region is one step. `cur_len` of the listen queue changes partly outside its lock
  (Assignment3/src/connection_demux.c:114, 201); here each operation is one step.
- `sr_arpcache_sweepreqs` reads the next pointer of a request that may just have been freed
  (Assignment2/src/router/sr_arpcache.c:24-27). The model saves it first, as the comment in
  Assignment2/src/router/sr_arpcache.h:61-63 asks.
- The partial dequeue copies between overlapping ranges with `memcpy`
  (Assignment3/src/mysock.c:204). The model shifts left.
- `_mysock_free_queue` says in its comment that it tells whether there were buffers of non-zero
  length; the code says whether there were any (Assignment3/src/mysock.c:230-256). The model
  follows the code.
- A completed connection points into an array that `_mysock_set_backlog` may move or shorten
  (Assignment3/src/connection_demux.c:341-354). The model uses slot indices. SetBacklog says exactly
  which limits leave the queue consistent, and the runs set only such.
- `ParsedRequest_create` leaves `port` uninitialised
  (Assignment1/starter_code/proxy_parse.c:276-293). The model takes it as NULL.
- The parser takes the version to start behind the address, and the end of a value to exist
  (Assignment1/starter_code/proxy_parse.c:414, 244-247). Where that reads behind a buffer, or
  computes with the null pointer of a line end that was not found, the model stops with `Wild`
  (`Overread`, `Undefined` in the specification); UndefinedExactly says for which octets.
- The request may hold zeros. Its text ends at the first one, but the parser steps two characters
  on from a colon without looking (Assignment1/starter_code/proxy_parse.c:244), so a value may
  start behind the zero, in the same copy. `Beyond` is the string there.
- `sent` in the model of the channel means put on the wire. When writes return 0,
  `_network_send_packet` may report a segment as sent of which nothing was written.
- The parser takes a path to be missing if the host is as long as what is left three characters
  behind as many characters as the protocol has (Assignment1/starter_code/proxy_parse.c:443-461).
  That is so for an address without a path, but not only: ProxyVerdict.Pathless counts it out.
- The header loop looks for the colon in all of the remaining text
  (Assignment1/starter_code/proxy_parse.c:233), so a key may run over a line end.
- A bad port is one that `strtol` reads as 0 while `errno` is EINVAL
  (Assignment1/starter_code/proxy_parse.c:500-501). The code does not clear `errno`, so the
  verdict depends on earlier calls as well as on the port. The model takes it as a parameter of
  each call, `badPort`, any predicate on port texts.
- `write` may return 0 for a non-empty buffer; `_network_send_packet` takes that for success
  (Assignment3/src/network_io_tcp.c:154-159), and the model does the same.

## Results that limit what the code promises

- `cksum` is exact for every block up to 131074 octets, and for no greater length; the signed
  accumulator of `_mysock_tcp_checksum` holds the sum of every segment up to 65528 octets, and of
  no greater length (RouterChecksum.LongestIsTight, TcpSum.LongestIsTight).
- A packet queue conserves its octets exactly when no take truncates (StreamConservation).
- A stream is read whole exactly when no read of size 0 meets a packet that is not empty
  (StreamWhole).
- The close report is final exactly when nothing is written after it; such a write is accepted,
  and announced only after another close request (ReportIsFinal, OneReportPerClose,
  WriteAfterReport).
- Framing carries packets of 1 to 65535 octets and no others (FitsExactly, ReceivedFrame).
- Packets arrive in order and whole as long as nothing is written behind a frame that was left
  unfinished (EndToEnd). Between two segments, all that can still be sent arrives as it should
  exactly when no frame has been left unfinished or the receiver has given up (ArrivesExactly):
  a sender that goes on after a failure may have wrong packets delivered, depending on what it
  sends.
- Setting a backlog keeps the listen queue consistent exactly when no request is in a slot that
  is cut off (SetBacklog).
- The hash table behaves as a finite map exactly when only new keys are inserted (FiniteMap).
  Deleting after another insertion trips its assertion (Delete, DuplicateInsert).
- An unanswered ARP request can survive eight sweeps, not nine (EightSweepsSurvived, Unanswered).
- The parser leaves its buffers exactly for request lines that end with the address, and for
  accepted ones whose last header has no value in the copy (UndefinedExactly); for instance for
  `GET http://h/` and an empty line (NoVersion), or for a lone colon behind the empty line
  (NoValueThere).
- The ARP table keeps addresses unique exactly when each one that is learnt is missing or the table
  is full (UniqueExactly).
- A request line is refused exactly as RejectedExactly says. For instance every line without a
  path behind `://` is (MissingPath); but `GET http:/h/ HTTP/1.0` is refused as well
  (OneSlashShort), and `GET http:h HTTP/1.0` is accepted (NoSlashes).
- A call fails without a request, is undefined, stops at a header without a colon, or succeeds
  exactly in the cases of OutcomeExactly.
- A printed request comes back from parsing exactly when it is well-formed (RoundTripExactly).
  Every accepted request is, so it comes back unless its text is too long or its port is
  rejected this time (Reprint).

## Model

| member | source | states |
|---|---|---|
| Sha1.Context.Reset | Assignment2/src/router/sha1.c:71-85 | from any earlier state: the context is valid again, neither spoiled nor computed, and the message read so far is empty |
| Sha1.Context.Result | Assignment2/src/router/sha1.c:104-119 | succeeds exactly on a context that is not spoiled, and the digest then is the SHA-1 of everything read; asked twice it gives the same digest |
| Sha1.Context.Input | Assignment2/src/router/sha1.c:143-185 | appends the data to the message; the context is spoiled exactly by input after the result or by a message of 2^64 bits or more |
| Sha1.Context.InputOctet | Assignment2/src/router/sha1.c:156-184 | one octet: index is the octet count mod 64, the two length words count eight times the octets, and a full buffer has gone through the compression |
| Sha1.Context.CountOctet | Assignment2/src/router/sha1.c:163-176 | the two 32-bit length words carry like one 64-bit counter, which spoils the context exactly when it runs over |
| Sha1.Context.ProcessMessageBlock | Assignment2/src/router/sha1.c:207-301 | the schedule, eighty passes and final additions of the code are the compression function of section 7 of FIPS PUB 180-1 |
| Sha1.Context.MessageSchedule | Assignment2/src/router/sha1.c:224-235 | `W[0..79]` is the message schedule of the buffered block |
| Sha1.Context.Passes | Assignment2/src/router/sha1.c:243-287 | the four loops of twenty passes over A to E are the eighty passes of the standard |
| Sha1.Context.PadMessage | Assignment2/src/router/sha1.c:326-371 | in both branches the digest becomes that of the padded message of section 4 |
| Sha1.PadOneBlock | Assignment2/src/router/sha1.c:349-356 | with at most 55 octets in the buffer the padded message ends with one more block |
| Sha1.PadTwoBlocks | Assignment2/src/router/sha1.c:334-348 | with 56 to 63 octets in the buffer it ends with two more blocks |
| Sha1.Context.StoreLength | Assignment2/src/router/sha1.c:358-368 | the last eight octets are the big-endian 64-bit length, the rest of the block is untouched |
| Sha1.LengthOctets | Assignment2/src/router/sha1.c:361-368 | the eight shifted and masked octets are the big-endian form of the two length words |
| Sha1.CircularShiftRotates | Assignment2/src/router/sha1.c:46-48 | the shift macro is the rotation of section 3, for every word and every amount |
| Sha1.JoinOctets | Assignment2/src/router/sha1.c:224-230 | shifting four octets into place and or-ing them reads a big-endian word |
| Sha1.HashPieces | Assignment2/src/router/sha1.c:143-185 | any run: reset, any number of pieces of any length, result. It succeeds exactly below 2^64 bits, and the digest is that of the concatenation, so the split does not matter |
| Sha1Spec.ZeroCount | Assignment2/src/router/sha1.c:326-356 | the zero filling is the least that leaves room for the length in a whole block |
| Sha1Spec.PadInjective | Assignment2/src/router/sha1.c:326-371 | distinct messages below 2^64 bits never pad to the same blocks |
| Sha1Spec.LengthField | Assignment2/src/router/sha1.c:359-368 | the last eight octets of a padded message give its bit length back |
| Words.BitOfXor | Assignment2/src/router/sha1.c:257 | exclusive or on words works bit by bit |
| Words.BitOfAnd | Assignment2/src/router/sha1.c:246 | and on words works bit by bit |
| Words.BitOfOr | Assignment2/src/router/sha1.c:246 | or on words works bit by bit |
| Words.BitOfNot | Assignment2/src/router/sha1.c:246 | the complement of a word has exactly the other 32 bits |
| Sha1Bits.RotatedBit | Assignment2/src/router/sha1.c:46-48 | the circular shift takes each bit its number of places up, round the end |
| Sha1Bits.ScheduleOctet | Assignment2/src/router/sha1.c:224-230 | the first sixteen words are the octets of the block, most significant first |
| Sha1Bits.ScheduleBit | Assignment2/src/router/sha1.c:232-235 | every later word is, bit by bit and one place up, the parity of the words 3, 8, 14 and 16 in front of it |
| Sha1Bits.LogicalBit | Assignment2/src/router/sha1.c:243-287 | the logical functions choose, take the parity and take the majority, bit by bit |
| MachineWords.ValueAnd | Assignment2/src/router/sha1.c:246 | and on words is the operator on 32-bit vectors |
| MachineWords.ValueOr | Assignment2/src/router/sha1.c:246 | or on words is the operator on 32-bit vectors |
| MachineWords.ValueXor | Assignment2/src/router/sha1.c:257 | exclusive or on words is the operator on 32-bit vectors |
| MachineWords.ValueNot | Assignment2/src/router/sha1.c:246 | the complement of a word is the operator on 32-bit vectors |
| MachineWords.ValueRotate | Assignment2/src/router/sha1.c:46-48 | the rotations by 1, 5 and 30 are two shifts of a 32-bit vector, joined |
| Sha1Example.PassIs | Assignment2/src/router/sha1.c:243-287 | a row of the table that follows from the row in front of it, on 32-bit vectors, is one pass |
| Sha1Example.DigestOfAbc | Assignment2/src/router/sha1.c:207-301 | the digest of "abc" is the one that appendix A of FIPS PUB 180-1 works out, through all eighty rows of its table |
| RouterChecksum.WordSum | Assignment2/src/router/sr_utils.c:12-15 | the summing loop leaves the sum of the 16-bit big-endian words, an odd octet followed by zero, mod 2^32 |
| RouterChecksum.NoOverflow | Assignment2/src/router/sr_utils.c:10-15 | up to 131074 octets the 32-bit accumulator holds the whole sum |
| RouterChecksum.FoldSum | Assignment2/src/router/sr_utils.c:16-17 | the fold loop terminates, each pass making the sum smaller, with the one value in 16 bits that is congruent mod 65535 and zero only for zero |
| RouterChecksum.Cksum | Assignment2/src/router/sr_utils.c:8-20 | on a host of either byte order the result has the memory image of the complemented folded sum, zero replaced by 0xffff |
| RouterChecksum.AllOnes | Assignment2/src/router/sr_utils.c:8-20 | 0xffff is returned exactly for word sums that are 0 mod 65535 |
| RouterChecksum.LongestIsTight | Assignment2/src/router/sr_utils.c:10-15 | for every length: 0xffff tells the blocks whose sum is 0 mod 65535 from all others exactly if the length is at most 131074 |
| RouterChecksum.WrappedOnes | Assignment2/src/router/sr_utils.c:10-15 | 131076 octets of ones: the sum is 0 mod 65535, the accumulator has wrapped, and 1 is returned |
| RouterChecksum.StoredChecksumVerifies | Assignment2/src/router/sr_utils.c:8-20 | zero a field at an even offset, store the checksum there, recompute: 0xffff |
| RouterChecksum.OneWordCorruption | Assignment2/src/router/sr_utils.c:8-20 | after that a change of one word is missed exactly when 0x0000 and 0xffff trade places |
| RouterChecksum.LastOctetCorruption | Assignment2/src/router/sr_utils.c:14-15 | a change of the odd last octet is always noticed |
| InternetChecksum.FoldStep | Assignment2/src/router/sr_utils.c:16-17 | one fold makes a sum above 16 bits strictly smaller and keeps the value it folds to |
| InternetChecksum.SwappedSum | Assignment3/src/tcp_sum.c:41-60 | reading every word in the other byte order multiplies the sum by 256 mod 65535 (section 2(B) of RFC 1071) |
| InternetChecksum.FoldByteOrder | Assignment3/src/tcp_sum.c:31-66 | the folded sum and its complement have the same memory image for both byte orders |
| InternetChecksum.TwoFolds | Assignment3/src/tcp_sum.c:62-64 | two folds are enough for every sum in a signed 32-bit word |
| InternetChecksum.SumUpdate | Assignment3/src/tcp_sum.c:70-84 | replacing the word at an even offset moves the sum by the difference of the words |
| TcpSum.AddPseudoHeader | Assignment3/src/tcp_sum.c:41-43 | the sum of the pseudo header of section 3.1 of RFC 793, without overflow |
| TcpSum.AddSegment | Assignment3/src/tcp_sum.c:45-60 | adds the words of the segment with th_sum left out, and no intermediate value overflows `int32_t` |
| TcpSum.FoldTwice | Assignment3/src/tcp_sum.c:62-66 | the two folds and the truncated complement give 0xffff minus the folded sum |
| TcpSum.TcpChecksum | Assignment3/src/tcp_sum.c:14-67 | for segments up to 65528 octets the result is, on a host of either byte order, the checksum RFC 793 asks for |
| TcpSum.AccumulatorBound | Assignment3/src/tcp_sum.c:41-60 | the sum over pseudo header and segment fits a signed 32-bit word |
| TcpSum.LongestIsTight | Assignment3/src/tcp_sum.c:32-60 | for every length from a header on: the sum fits the signed accumulator for all segments, addresses and byte orders exactly if the length is at most 65528 |
| TcpSum.SetChecksum | Assignment3/src/tcp_sum.c:70-84 | writes the two octets of the checksum into the packet and nothing else |
| TcpSum.VerifyChecksum | Assignment3/src/tcp_sum.c:87-105 | true exactly when the stored field is the checksum from the peer to this end |
| TcpSum.RoutinesAgree | Assignment3/src/tcp_sum.c:14-67 | both routines of the repository give the same octets for a segment, except where the router writes 0xffff for 0 |
| TcpSum.StampedVerifies | Assignment3/src/tcp_sum.c:70-105 | a stamped segment verifies at the other end |
| TcpSum.DamagedWord | Assignment3/src/tcp_sum.c:87-105 | one damaged word in a segment that verified is missed exactly when 0x0000 and 0xffff trade places outside the checksum field |
| TcpSum.PseudoHeaderSum | Assignment3/src/tcp_sum.c:26-43 | the pseudo header adds the two words of each address, the protocol 6 and the length |
| TcpSum.OtherAddresses | Assignment3/src/tcp_sum.c:87-105 | a segment that verifies between two addresses verifies between two others exactly if the words of the addresses add up to the same mod 65535 |
| TcpSum.DamagedAddress | Assignment3/src/tcp_sum.c:87-105 | one damaged word in either address is missed exactly when 0x0000 and 0xffff trade places |
| PacketQueue.Queue.Enqueue | Assignment3/src/mysock.c:130-165 | appends one packet behind the tail and keeps head, tail and links well formed |
| PacketQueue.Queue.Dequeue | Assignment3/src/mysock.c:174-228 | copies the front of the head packet and no more; leaves the rest of the packet queued exactly if it is split, and otherwise unlinks it |
| PacketQueue.Queue.TrimHead | Assignment3/src/mysock.c:203-206 | the head packet shifts left over what was taken |
| PacketQueue.Queue.FreeQueue | Assignment3/src/mysock.c:235-256 | empties the queue; the flag says whether it held any packet |
| PacketQueue.StepConserves | Assignment3/src/mysock.c:174-228 | one operation: octets go missing exactly when a packet longer than the buffer is taken without splitting |
| PacketQueue.StreamConservation | Assignment3/src/mysock.c:130-228 | over any mixture of operations: octets handed out, followed by those queued, are those put in, exactly when no take truncated |
| PacketQueue.HeadDrained | Assignment3/src/mysock.c:195-213 | with splitting, every take of a packet but the last fills the buffer, so it is taken in as few takes as there can be, in order, and only then the next one comes |
| DescriptorTable.Table.NewMysocket | Assignment3/src/mysock.c:39-64 | a fresh context under the lowest free number; -1 exactly when all 64 are taken, and then no entry has changed |
| DescriptorTable.Table.FreeContext | Assignment3/src/mysock.c:305-335 | clears the entry only if it is that very context |
| MysockContext.Context.Write | Assignment3/src/mysock_api.c:198-210 | queues the octets for the transport layer as one packet; -1 and nothing queued on a listening mysocket |
| MysockContext.Context.Read | Assignment3/src/mysock_api.c:212-233 | hands over the front of the stream; a count of zero raises the end flag for good |
| MysockContext.Context.RequestClose | Assignment3/src/mysock_api.c:161-172 | raises the close request and touches nothing else |
| MysockContext.Context.AppSend | Assignment3/src/stcp_api.c:250-260 | queues the payload for the application; an empty one is dropped |
| MysockContext.Context.FinReceived | Assignment3/src/stcp_api.c:262-268 | queues the empty packet that stands for the end |
| MysockContext.Context.AppRecv | Assignment3/src/stcp_api.c:236-247 | takes from the front of what was written and keeps what did not fit |
| MysockContext.Context.Poll | Assignment3/src/stcp_api.c:62-127 | one pass of the wait: which events are reported, and that a due close request is taken back whether or not the caller asked for it |
| StreamRuns.ReadStepInv | Assignment3/src/mysock_api.c:212-233 | what was read, followed by what is queued before the first end marker, stays what was sent before it; a read of size 0 that meets a packet that is not empty cuts the stream short, and nothing else does |
| StreamRuns.ReadsArePrefix | Assignment3/src/mysock_api.c:212-233 | over every run: octets read are a prefix of those sent before the first end marker; and if no read of size 0 met a packet that was not empty, a read of 0 comes only when all of that was read |
| StreamRuns.StreamWhole | Assignment3/src/mysock_api.c:212-233 | over every run: the end seen is the true end exactly if no read of size 0 met a packet that was not empty; otherwise octets are left over for good |
| StreamRuns.EndIsForever | Assignment3/src/mysock_api.c:212-233 | after a read of 0 every later read gives 0, whatever is sent |
| StreamRuns.EmptyReadEnds | Assignment3/src/mysock_api.c:225-230 | one read of no octets ends the stream at once; one of a positive size does exactly at the end marker |
| StreamRuns.CloseAfterData | Assignment3/src/stcp_api.c:62-127 | over every run: at most one close event per request, and only when every octet written has been taken |
| StreamRuns.ReportIsFinal | Assignment3/src/stcp_api.c:78-87 | after the report nothing is ever left to take exactly if nothing is written after it |
| StreamRuns.OneReportPerClose | Assignment3/src/stcp_api.c:78-87 | without another close request there is no other report, whatever is written |
| StreamRuns.WriteAfterReport | Assignment3/src/mysock_api.c:198-210 | the assertion in `mywrite` does not exclude a write after the report; another close request then announces its octets |
| StreamRuns.CloseIsReported | Assignment3/src/stcp_api.c:62-127 | from every state with a close request pending, taking the rest and one wait lead to exactly one more report, when all is taken |
| Framing.Frame | Assignment3/src/network_io_tcp.c:135-160 | two octets of length and the packet |
| Framing.FitsExactly | Assignment3/src/network_io_tcp.c:135-239 | the receiver gets the length right and does not see the end of the stream exactly for packets of 1 to 65535 octets |
| Framing.ReceivedFrame | Assignment3/src/network_io_tcp.c:163-239 | a frame at the front of the stream, received with success: the packet comes out and the stream stands behind it exactly if it has 1 to 65535 octets and fits the buffer; otherwise its beginning comes out, and of one that is too long for the framing the next length is read from inside it |
| Framing.LengthRoundTrip | Assignment3/src/network_io_tcp.c:135-239 | the length read is the length sent mod 2^16 |
| Framing.WriteAll | Assignment3/src/network_io_tcp.c:243-265 | whatever the short writes: all of the buffer; or a proper prefix of it, with -1 exactly if one of its writes failed, or with 0 exactly if one returned 0; if the system serves every call, all of it |
| Framing.ReadAll | Assignment3/src/network_io_tcp.c:243-265 | whatever the short reads: all that was asked for; or less, with -1 exactly if one of its reads failed, or with 0 exactly if one returned 0; if the system serves every call, all that was asked for, if it is there |
| Framing.SendPacket | Assignment3/src/network_io_tcp.c:135-160 | -1 exactly if one of its writes failed; if no write returns 0, success writes exactly the frame, failure a proper prefix of it; a write of 0 is taken for success, and then a part of the length or of the packet is missing; if the system serves every call, the length of the packet, and its frame is written |
| Framing.RecvPacket | Assignment3/src/network_io_tcp.c:163-239 | a packet that fits is received whole and the stream stands behind its frame; a longer one is cut; otherwise the stream ended inside a frame. It fails only if one of its reads did, and returns 0 only if one did or nothing was asked for; if the system serves every call, a whole frame in front comes out, cut to the buffer, and is gone |
| Framing.Exchange | Assignment3/src/network_io_tcp.c:135-265 | any number of packets sent and then received, with a system that serves every call, however short: exactly these packets, in order, and nothing is left |
| NetworkSend.Gather | Assignment3/src/stcp_api.c:199-212 | the pieces are gathered in order in one buffer |
| NetworkSend.FillHeader | Assignment3/src/stcp_api.c:214-229 | ports, urgent pointer and checksum are filled in and nothing else changes |
| NetworkSend.NetworkSend | Assignment3/src/stcp_api.c:188-231 | -1 exactly if a write failed; success puts exactly the frame of the stamped segment on the wire, if no write returns 0 |
| NetworkSend.StampedArrives | Assignment3/src/stcp_api.c:158-168 | a stamped segment passes the check of the receiver; octets 4 to 16 and the payload arrive as given, the ports are those of the two ends, and the urgent pointer is zero |
| Channel.ReadInv | Assignment3/src/network_io_tcp.c:163-265 | any short read keeps the stream aligned with the frames |
| Channel.StepInv | Assignment3/src/network_io_tcp.c:135-265 | every step of sender, stream and receiver keeps the invariant |
| Channel.EndToEnd | Assignment3/src/network_io_tcp.c:135-265 | at every moment of every run, with every schedule of short reads and writes and of failures, that writes nothing behind a frame left unfinished: packets delivered are a prefix of those sent (then perhaps the end marker), and the checksum assertion of the receiver never fails |
| Channel.AllDelivered | Assignment3/src/network_io_tcp.c:135-265 | when all is written, read and collected, everything sent has been delivered |
| Channel.Progress | Assignment3/src/network_io_tcp.c:135-265 | from every state with no frame unfinished and the receiver still reading, some writes, reads and receives lead to where everything sent has been delivered |
| Channel.ArrivesExactly | Assignment3/src/network_io_tcp.c:135-265 | from every state between two segments: all that can be sent from there on without failures arrives as it should exactly if no frame has been left unfinished, or the receiver has given up |
| Channel.TornDelivers | Assignment3/src/network_io_tcp.c:135-265 | from every state with an unfinished frame and a receiver that still reads there is a run without failures in which a packet comes out in the place of another |
| Channel.TornState | Assignment3/src/network_io_tcp.c:135-157 | a failure anywhere inside a frame leads to such a state |
| ListenQueue.Backlog.SetBacklog | Assignment3/src/connection_demux.c:310-357 | the new limit; old requests keep their slots; the queue is consistent afterwards exactly if no request is in a slot that is cut off |
| ListenQueue.Backlog.IsRetransmission | Assignment3/src/connection_demux.c:170-184 | finds a request exactly if the peer has one |
| ListenQueue.Backlog.FindFree | Assignment3/src/connection_demux.c:189-198 | below the limit the scan finds the first empty slot, so the assertion behind it holds |
| ListenQueue.Backlog.Enqueue | Assignment3/src/connection_demux.c:142-258 | a SYN is admitted exactly if the peer is new, there is room and a mysocket; it then occupies the first empty slot and `cur_len` counts it |
| ListenQueue.Backlog.Complete | Assignment3/src/connection_demux.c:260-304 | finds the slot of the mysocket and appends it to the completed list |
| ListenQueue.Backlog.AppendCompleted | Assignment3/src/connection_demux.c:283-298 | the walk to the end of the list appends and changes nothing else |
| ListenQueue.Backlog.Accept | Assignment3/src/connection_demux.c:74-118 | takes the connection that completed first, frees its slot and counts it down |
| ListenQueue.Backlog.Close | Assignment3/src/connection_demux.c:360-398 | closes every request that was not passed up and empties the queue |
| ListenQueue.SynConsistent | Assignment3/src/connection_demux.c:142-258 | no two requests of one peer or one mysocket, completed names distinct busy slots: kept by a SYN |
| ListenQueue.CompleteConsistent | Assignment3/src/connection_demux.c:260-304 | the same, kept by a completion |
| ListenQueue.AcceptConsistent | Assignment3/src/connection_demux.c:74-118 | the same, kept by an accept, which finds its slot occupied |
| ListenQueue.ResizedConsistent | Assignment3/src/connection_demux.c:310-357 | a new limit keeps the table consistent and counted exactly if no request is in a slot that is cut off |
| ListenQueue.QueuedIsAll | Assignment3/src/connection_demux.c:375-379 | closing reaches exactly the mysockets of the requests, as many as are counted |
| ListenQueue.CountFull | Assignment3/src/connection_demux.c:189-198 | a count below the size of the table means that some slot is empty |
| ListenQueue.SynAdmitted | Assignment3/src/connection_demux.c:170-258 | a SYN gets the first empty slot exactly if its peer is new, fewer requests are counted than there are slots, and there is a mysocket; then one more is counted, and otherwise nothing changes |
| ListenQueue.SynFlag | Assignment3/src/connection_demux.c:159-164 | a SYN is a packet of at least 20 octets with the second bit of its fourteenth octet set |
| AcceptRuns.StepInv | Assignment3/src/connection_demux.c:74-304 | every step keeps the invariant of queue, identities and order |
| AcceptRuns.RunInv | Assignment3/src/connection_demux.c:74-304 | every state of every run satisfies it |
| AcceptRuns.AssertionsHold | Assignment3/src/connection_demux.c:74-304 | in every run the count stays within the limit, an empty slot is found below it, a completing mysocket has a slot that is not completed yet, and `cur_len` is positive at an accept |
| AcceptRuns.AcceptOrder | Assignment3/src/connection_demux.c:88-114 | connections are accepted in the order of completion, each admitted SYN at most once, and admitted is accepted plus pending |
| HashTable.FirstMatch | Assignment3/src/mysock_hash.h:124-144 | what unlinking or overwriting the first entry of a key does to the data under every key |
| HashTable.Table.GetEntry | Assignment3/src/mysock_hash.h:65-75 | the newest entry of the key, or none exactly if there is no data under it |
| HashTable.Table.Lookup | Assignment3/src/mysock_hash.h:96-101 | the newest data |
| HashTable.Table.LookupPtr | Assignment3/src/mysock_hash.h:103-107 | the newest data, or null |
| HashTable.Table.Exists | Assignment3/src/mysock_hash.h:109-113 | true exactly if there is data under the key |
| HashTable.Table.Insert | Assignment3/src/mysock_hash.h:77-94 | pushes on the stack of the key, leaves all other keys alone, and the closing assertion holds |
| HashTable.Table.SetEntry | Assignment3/src/mysock_hash.h:115-122 | replaces the newest data or inserts; all other keys are left alone |
| HashTable.Table.Delete | Assignment3/src/mysock_hash.h:124-144 | pops; all other keys are left alone; the closing assertion holds exactly if at most one entry was there |
| HashTable.FiniteMap | Assignment3/src/mysock_hash.h:65-144 | every prefix of a run behaves as a finite map exactly if only new keys are inserted; set_entry is free |
| HashTable.DuplicateInsert | Assignment3/src/mysock_hash.h:77-144 | after any other insertion, deleting the key brings the older data back |
| ArpCache.Cache.Lookup | Assignment2/src/router/sr_arpcache.c:67-89 | the last valid entry of the address, by scanning all of the table |
| ArpCache.Cache.QueueReq | Assignment2/src/router/sr_arpcache.c:97-136 | finds or puts in front the request of the address; the packet joins it in front of the others |
| ArpCache.Cache.Insert | Assignment2/src/router/sr_arpcache.c:142-181 | stores the mapping in the first invalid entry, unlinks exactly the request of the address with its packets, and keeps the order of the others |
| ArpCache.Cache.Destroy | Assignment2/src/router/sr_arpcache.c:185-221 | a request that is still queued is taken out, one that is not leaves the queue alone |
| ArpCache.RequestNode.Handle | Assignment2/src/router/sr_arpcache.c:31-61 | transmits when the last transmission is over a second ago and there were fewer than five |
| ArpCache.Cache.SweepReqs | Assignment2/src/router/sr_arpcache.c:19-29 | handles every request in order, drops those that have been sent five times, and frees exactly their packets |
| ArpCache.Cache.Timeout | Assignment2/src/router/sr_arpcache.c:262-286 | one round: entries older than 15 seconds become invalid, then the sweep |
| ArpRuns.PacketConservation | Assignment2/src/router/sr_arpcache.c:97-221 | over every run: at most one request per address; packets queued are those waiting, handed back and freed, as a multiset; a request holds its packets newest first |
| ArpRuns.Queued | Assignment2/src/router/sr_arpcache.c:97-136 | a first packet puts a request that was never sent in front; a later one joins its request in front of the others, which keeps when and how often it was sent; no other request changes |
| ArpRuns.SweepKeeps | Assignment2/src/router/sr_arpcache.c:19-29 | a sweep frees exactly the packets of the requests it gives up |
| ArpRuns.SweepAppend | Assignment2/src/router/sr_arpcache.c:19-29 | a sweep keeps the order: it treats the front of the queue, and then the rest |
| ArpRuns.SweepDistinct | Assignment2/src/router/sr_arpcache.c:19-29 | a sweep keeps addresses distinct |
| ArpRuns.SweepsAlone | Assignment2/src/router/sr_arpcache.c:19-61 | what a run of sweeps leaves of one request does not depend on the others |
| ArpRuns.SweptState | Assignment2/src/router/sr_arpcache.c:19-61 | how a fresh request stands after any run of sweeps with an advancing clock |
| ArpRuns.RetryDiscipline | Assignment2/src/router/sr_arpcache.c:19-61 | at most five transmissions, each more than a second after the one before; none with five survives; gone after nine sweeps |
| ArpRuns.Unanswered | Assignment2/src/router/sr_arpcache.c:19-61 | from the first packet for an address on, if nobody answers: whatever else is queued in between, for it or for others, the request has been given up by the ninth sweep |
| ArpRuns.SweptAway | Assignment2/src/router/sr_arpcache.c:19-61 | and if only sweeps follow, it is gone after nine of them |
| ArpRuns.FirstSweepSends | Assignment2/src/router/sr_arpcache.c:31-57 | the first sweep after the first second transmits a request that was just queued, and keeps it with its packet |
| ArpRuns.StandsOrGone | Assignment2/src/router/sr_arpcache.c:19-136 | packets that join a request, and other requests, change nothing about when it is sent |
| ArpRuns.EightSweepsSurvived | Assignment2/src/router/sr_arpcache.c:19-61 | eight sweeps need not be enough |
| ArpRuns.LookupIsFresh | Assignment2/src/router/sr_arpcache.c:67-89 | over every run: an entry found was learnt for that address with that MAC, at most 15 seconds before the latest sweep |
| ArpRuns.LookupMap | Assignment2/src/router/sr_arpcache.c:67-89 | lookup is lookup in the map the table stands for |
| ArpRuns.LearnMissing | Assignment2/src/router/sr_arpcache.c:142-165 | learning what is missing keeps addresses unique and adds to the map exactly while there is room |
| ArpRuns.ExpireMap | Assignment2/src/router/sr_arpcache.c:269-278 | expiry removes from the map exactly what is older than 15 seconds |
| ArpRuns.MapSize | Assignment2/src/router/sr_arpcache.c:142-165 | the map is as large as the table exactly when no entry is invalid |
| ArpRuns.TableIsMap | Assignment2/src/router/sr_arpcache.c:67-278 | over every such run the table is a finite map with 100 places that forgets |
| ArpRuns.UniqueExactly | Assignment2/src/router/sr_arpcache.c:142-176 | addresses stay unique at every moment of a run exactly if each one that is learnt is missing or the table is full |
| HeaderSpec.SetThenGet | Assignment1/starter_code/proxy_parse.c:40-88 | set then get gives the value, the other keys keep theirs, keys stay distinct, a new key goes to the end |
| HeaderSpec.RemoveOthers | Assignment1/starter_code/proxy_parse.c:91-102 | removal takes the key away and leaves what is under every other key |
| HeaderSpec.TombstoneRemoves | Assignment1/starter_code/proxy_parse.c:91-102 | an entry whose key is cleared in the table is a removal from the list of headers |
| HeaderSpec.IndexGet | Assignment1/starter_code/proxy_parse.c:73-88 | the first entry with the key carries what the list has under it |
| ProxyParse.ParsedRequest.constructor | Assignment1/starter_code/proxy_parse.c:276-293 | no buffer, no headers, room for eight |
| ProxyParse.ParsedRequest.HeaderGet | Assignment1/starter_code/proxy_parse.c:73-88 | the first entry with the key, and none exactly if the list has no such key |
| ProxyParse.ParsedRequest.HeaderRemove | Assignment1/starter_code/proxy_parse.c:91-102 | removes the key from the list and fails exactly if it was not there |
| ProxyParse.ParsedRequest.Grow | Assignment1/starter_code/proxy_parse.c:46-53 | after it there are at least two free places, and the entries are as before |
| ProxyParse.ParsedRequest.HeaderSet | Assignment1/starter_code/proxy_parse.c:40-69 | the list becomes the old one without the key and the new header at its end; used entries stay fewer than the size of the table |
| ProxyParse.ParsedRequest.HeaderParse | Assignment1/starter_code/proxy_parse.c:226-254 | one header: key up to the first colon of all the text, value from two characters behind it up to the next line end, also when that means stepping over the zero that ends the text |
| ProxyParse.ParsedRequest.HeadersLen | Assignment1/starter_code/proxy_parse.c:150-164 | the length of the printed headers with their empty line; 0 without a request |
| ProxyParse.ParsedRequest.RequestLineLen | Assignment1/starter_code/proxy_parse.c:540-555 | the length of the printed request line |
| ProxyParse.ParsedRequest.TotalLen | Assignment1/starter_code/proxy_parse.c:330-335 | the length of the text that is printed |
| ProxyParse.ParsedRequest.PrintHeaders | Assignment1/starter_code/proxy_parse.c:166-195 | writes exactly the live headers in order and the empty line if they fit, and otherwise nothing |
| ProxyParse.ParsedRequest.PrintRequestLine | Assignment1/starter_code/proxy_parse.c:557-599 | writes exactly the request line if it fits, and otherwise nothing |
| ProxyParse.ParsedRequest.Unparse | Assignment1/starter_code/proxy_parse.c:299-311 | succeeds exactly if there is a request and the total length fits, and then has written exactly the text; a failure at the headers leaves the line written |
| ProxyParse.ParsedRequest.UnparseHeaders | Assignment1/starter_code/proxy_parse.c:317-326 | the same for the headers alone |
| ProxyParse.CutToken | Assignment1/starter_code/proxy_parse.c:393 | `strtok_r` on the buffer: one zero is written where the token ends |
| ProxyParse.ParsedRequest.ReadAddress | Assignment1/starter_code/proxy_parse.c:434-444 | cuts off the protocol and measures the rest from three characters behind its length |
| ProxyParse.ParsedRequest.ReadHost | Assignment1/starter_code/proxy_parse.c:446-461 | cuts off the host, which must not be as long as the rest |
| ProxyParse.ParsedRequest.ReadPath | Assignment1/starter_code/proxy_parse.c:463-484 | copies the path with its slash, `/` if there is none; a second slash fails |
| ProxyParse.ParsedRequest.ReadPort | Assignment1/starter_code/proxy_parse.c:486-512 | cuts the host at its port; a bad port fails |
| ProxyParse.ParsedRequest.ReadHeaders | Assignment1/starter_code/proxy_parse.c:513-533 | all header lines up to the empty line |
| ProxyParse.ParsedRequest.Parse | Assignment1/starter_code/proxy_parse.c:351-534 | the whole call: -1 and nothing changed on a request in use, no request left behind by a failure before the headers, otherwise fields and headers as specified; it reads behind a buffer exactly for the texts that `Overreads` describes, and returns 0 exactly for those that `Succeeds` describes |
| ProxySpec.ProtocolEnds | Assignment1/starter_code/proxy_parse.c:434-444 | measuring from behind the length of the protocol stays inside the buffer |
| ProxyRoundTrip.ParseLineGood | Assignment1/starter_code/proxy_parse.c:392-512 | the line of a well-formed request is accepted and yields its fields |
| ProxyHeaders.ChainRead | Assignment1/starter_code/proxy_parse.c:513-531 | for every text: reading from a line start sets the key in front of the next colon, and after it every part of that key behind a line end, up to an empty line, which ends the reading |
| ProxyHeaders.TakenIs | Assignment1/starter_code/proxy_parse.c:40-69 | what these settings come to: the keys of the chain go to the end in order, all with the value; every other header keeps its place |
| ProxyHeaders.ResultRereadable | Assignment1/starter_code/proxy_parse.c:513-531 | whatever text is read, the keys that were set together with a header stand behind it, and a header that ended the reading is followed by exactly those |
| ProxyHeaders.PrintedList | Assignment1/starter_code/proxy_parse.c:166-195 | a list of that shape, printed and read, comes back |
| ProxyHeaders.PlainKeys | Assignment1/starter_code/proxy_parse.c:226-254 | every list of keys without line ends is of that shape |
| ProxyHeaders.KeyReadTwice | Assignment1/starter_code/proxy_parse.c:226-254 | a key that runs over a line end does not come back alone, and does with the header of its second part behind it |
| ProxyRoundTrip.ParseUndoesPrint | Assignment1/starter_code/proxy_parse.c:299-599 | parsing the printed text of a well-formed request gives back all fields and headers, so printing that gives back the text |
| ProxyAccepted.AcceptedIsGood | Assignment1/starter_code/proxy_parse.c:351-534 | every accepted request has fields free of their delimiters, a port that is not bad, distinct keys without colons, values without line ends, and its headers in an order in which they can be read again |
| ProxyAccepted.RoundTripExactly | Assignment1/starter_code/proxy_parse.c:299-599 | for every line and every list: parse undoes print exactly if line and headers are well-formed, the port is accepted and the text has at most 65535 characters |
| ProxyAccepted.Reprint | Assignment1/starter_code/proxy_parse.c:299-599 | every accepted request comes back the same from printing and parsing exactly if its text is not too long and its port is accepted again |
| ProxyOverread.LineOverread | Assignment1/starter_code/proxy_parse.c:392-414 | the version is looked for behind the line exactly if the line is blanks, a word, blanks and a second word that ends it |
| ProxyOverread.HeadersOverread | Assignment1/starter_code/proxy_parse.c:226-254 | a value is looked for behind the copy, or has no end in it, exactly if the last line in front of the first empty one has no colon, and the first colon behind it has no line end two or more characters behind it, in the text or, if the colon ends the text, in the string behind its zero |
| ProxyOverread.UndefinedExactly | Assignment1/starter_code/proxy_parse.c:351-534 | a whole call, of any octets, is undefined exactly if the request line ends with the address, or is accepted and a value is missing |
| ProxyOverread.NoVersion | Assignment1/starter_code/proxy_parse.c:392-414 | for instance every request of a method and an address without a version |
| ProxyOverread.MissingValue | Assignment1/starter_code/proxy_parse.c:226-254 | for instance a header without a colon, and a lone colon behind the empty line |
| ProxyOverread.NoValueThere | Assignment1/starter_code/proxy_parse.c:226-254 | every request with such headers and nothing behind them is undefined |
| ProxyOverread.ZeroSteppedOver | Assignment1/starter_code/proxy_parse.c:226-254 | with a zero behind the colon, and a line end behind that, the same request is accepted, with the value from behind the zero |
| ProxyVerdict.LineVerdict | Assignment1/starter_code/proxy_parse.c:392-512 | for every line, from its words and the pieces of its address: refused, read behind its end, or accepted with these fields |
| ProxyVerdict.RejectedExactly | Assignment1/starter_code/proxy_parse.c:392-512 | over the characters of the line: it is refused exactly if it has no second word; or there is a version that does not start with HTTP/, no host, a bad port, a path that starts with two slashes, or what the parser takes for a missing path |
| ProxyVerdict.AcceptedExactly | Assignment1/starter_code/proxy_parse.c:392-512 | a line yields given fields exactly if it can be taken apart into them and is not refused |
| ProxyVerdict.UriLength | Assignment1/starter_code/proxy_parse.c:443-461 | the host is as long as the rest that is measured exactly if the marks in front of the protocol, the slashes in front of the host and the path come to two characters; or, with three marks or more, if the host is three shorter than these |
| ProxyVerdict.MissingPath | Assignment1/starter_code/proxy_parse.c:455-461 | a line whose address is protocol, host and perhaps port, without a path, is refused |
| ProxyVerdict.OneSlashShort | Assignment1/starter_code/proxy_parse.c:443-461 | so is one with a path, if only one slash is in front of the host and the path is just a slash |
| ProxyVerdict.NoSlashes | Assignment1/starter_code/proxy_parse.c:443-467 | one without any slash is accepted |
| ProxyOutcome.NoColonAt | Assignment1/starter_code/proxy_parse.c:234-239 | at a line start that is not an empty line, with no colon in the rest of the text, reading fails and leaves the headers in front of it |
| ProxyOutcome.HeadersNoColon | Assignment1/starter_code/proxy_parse.c:513-531 | reading ends that way exactly if neither the last line in front of the first empty one nor anything behind it has a colon |
| ProxyOutcome.OutcomeExactly | Assignment1/starter_code/proxy_parse.c:351-534 | for any octets: the call fails without leaving a request exactly if there are fewer than 4 or more than 65535, no empty line, or a refused line; it is undefined, stops at a header, or succeeds exactly in the other cases as described |
| ProxyOutcome.MissingPathFails | Assignment1/starter_code/proxy_parse.c:455-461 | every request without a path fails, whatever follows its line |
| ProxyExample.Example | Assignment1/starter_code/proxy_parse.c:299-599 | a request with a port and two headers, letter by letter: how it is printed, and what is read from it |

## Left out

- Channel.EndToEnd: the packets of one direction of one connection, of at most 1500 octets each, as the sender asserts.
- ArpCache.RequestNode.Handle: does not model what goes out on the wire, the ARP request or the ICMP host unreachable messages.
- ArpCache.Cache.QueueReq: waiting packets are a sequence value held by the request node, not a linked list of their own; a NULL or empty packet is `None`.
- DescriptorTable.Table.FreeContext: models the table entry; the queues, locks and network state it releases are not modelled.
- ProxyParse.ParsedRequest.HeadersLen: lengths are unbounded; the code sums them in an `int`.
- HashTable.Table.GetEntry: the hash function is any function that stays below the size of the table, and keys are compared with equality.
- ParsedRequest_destroy, ParsedHeader_destroy and the commented-out ParsedHeader_modify: releasing memory.
- Failing `malloc`, `calloc` and `realloc` everywhere.
- Threads, condition variables and locks beyond atomic steps; waiting is a precondition of the operation that waits.
- `tcp_checksum`: its assertions on alignment.
- Sockets, `poll`, name resolution, binding and connecting: `network_io_tcp.c` and `network_io_socket.c` beyond framing.
- `sr_router.c`: it writes through uninitialised pointers and compares network-order fields with host-order constants, so a model would be a rewrite.
- `transport.c`: the handshake and sliding window are empty stubs.
- `sr_if.c`, `sr_rt.c`, `sr_dumper.c`, `sr_vns_comm.c`, `sr_main.c`, `proxy.c`, `client.c`, `server.c`, the socket assignment and the Python modules: plumbing, list lookups and appends that would add only easy members.
- Printing and debug helpers, and the cryptographic strength of SHA-1.
