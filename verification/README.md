# The wire layer of the SSDB client, modelled and proved in Dafny

The project models the byte-level core of the client: the growable `Buffer`, the native packet
framing of `Link`, the Redis front end of `RedisLink` (request parser, command rewriting, reply
printer), the text helpers below them and `ClientImpl::request` above them.

Each part comes twice. What changes state in the C++ code is a class with the same fields, or a method
with the same loop: `Buffer`, `Link`, `RedisLink`, `ClientImpl`, the loops of `recv`, `parse_req`,
`send_resp`, `str_escape` and `str_unescape`. Its contract ties the new state to functions on plain
values (`Window`, `Parse`, `ScanRequest`, `Convert`, `Respond`, `Receive`, `Serve`). The theorems are about those functions
and about independent readings of them: a grammar of packet texts, a byte queue, a RESP decoder, the
Redis meaning of score bounds and rank ranges, a key/value lookup, a map.

| file | content |
|---|---|
| `Text.dfy` | memchr, "%d", strtol, atoi, errno, tolower |
| `Escape.dfy` | `str_escape`, `str_unescape` |
| `Buffers.dfy`, `ByteQueue.dfy`, `BlockSizes.dfy`, `Views.dfy` | `Bytes`, `Buffer`, the queue that every run of operations amounts to, how blocks grow, and what happens to the views of a packet |
| `Framing.dfy`, `Verdicts.dfy`, `Streams.dfy` | the packet format and its parser; what it refuses or waits for; a receiver fed in arbitrary chunks |
| `Fifo.dfy`, `LinkPairs.dfy` | two Links and a byte channel as a transition system, and two Link objects that run it |
| `Resp.dfy`, `RedisRequests.dfy`, `RedisCommands.dfy`, `RedisReplies.dfy` | RESP requests, rewriting, replies |
| `RequestVerdicts.dfy`, `CommandTable.dfy`, `Effects.dfy` | what is refused or waited for; names, places and replies command by command; what moved arguments do to the data |
| `ReplyDecoding.dfy`, `KeyRanges.dfy`, `ScoreRanges.dfy`, `ScoreLists.dfy`, `ScoreReplies.dfy`, `RankRanges.dfy` | what these preserve |
| `ErrnoCarriesOver.dfy`, `RedisSessions.dfy` | errno between requests, and pipelined requests in a buffer |
| `Serving.dfy`, `Responses.dfy`, `RequestStreams.dfy` | `recv` and `response` as functions of the input and of what the system does; sequences of calls, on packets and on requests |
| `RedisLinks.dfy`, `Kernels.dfy`, `Links.dfy`, `Client.dfy` | the classes |
| `MapsStored.dfy` | what the client's multi_zset does to the data |

## How to read the model

- A `string` stands for a byte string, one char per byte. Except for `str_escape`, which needs byte
  values, the theorems hold for any characters.
- `read(2)` and `write(2)` are a `Kernel` object that plays an arbitrary finite script: any number of
  bytes, EINTR, EWOULDBLOCK, any other failure. A script that has run out is a closed connection.
- `errno` is part of the state: it lives in `Kernel` and is passed through `parse_req` and
  `convert_req`, which read it and set it.
- `long` has 64 bits. strtol saturates, the cast to `int` wraps, and the sum of an `int` and 1 in the
  bound rewriting is taken to wrap as well. A record or argument is shorter than 2^31 bytes wherever
  its length goes through an `int` that is read back.
- A view (`Bytes`) is an offset and a length in the memory of the input buffer, or a string kept
  elsewhere; reading it takes what the memory holds at that moment.
- strtol is given the buffer's contents. Where the code would let it run past their end into stale
  memory (a heading without digits at the very end of the input), the model stops at the end.
- The SSDB server is not part of the repository. Where a theorem speaks of its answers or of the
  meaning of a command sent to it, the reading is spelled out beside it: MGET answers the found
  key/value pairs in request order, an empty score bound is no bound, a size of -1 is no limit and a
  size from 0 on is a count. What a size below -1 means is left open. zscan and zrscan take, behind the
  bounds, the number of members to skip and the number to take. The argument orders of setx, zset,
  multi_zset, zincr and hkeys are those that the client in the repository sends
  (`src/SSDB_impl.cpp`:176, 298, 371, 386, 488).
- The decoder of replies reads a ':' line as the protocol does: an optional sign, digits, and a value
  in the signed 64-bit range.

## Findings

Properties that do not hold as one would expect, each with its exact condition:

- A request, well-formed or not, is read the same for every errno on entry but EINVAL, and with that
  nothing that has a heading is accepted (`ErrnoOnEntry`). A request leaves EINVAL exactly if the last
  text that it reads as a number is none and no other errno covers that up: the ends of ZRANGE and
  ZREVRANGE, the exclusive bounds of ZRANGEBYSCORE and ZREVRANGEBYSCORE (`NextRequestRefusedIff`, with
  `ZRANGE k 0 end` and `ZRANGEBYSCORE k (a (b`). So of pipelined requests exactly those up to and
  including the first that leaves EINVAL come out, of a buffer (`PipelineHandled`, `AllHandledIff`)
  and of a blocking link, however the bytes arrive; an interrupted read may put another errno over
  EINVAL and let more of them through, never fewer (`ResponsesAreTheRequests`,
  `InterruptionLetsThrough`).
- On a non-blocking link `response()` gives up on a whole message that it has already read, exactly if
  the end of the stream or an error follows the message's last bytes in the same `read()` while the
  buffer has room left (`GivesUpOnMessageIff`, `PacketGivenUp`). A blocking link never does: it returns
  the packets of everything that arrives (`ResponsesAreTheStream`).
- The comment on `nice()` wants views to stay valid. `Link::read` calls it and then stores what
  arrives. A view of a received packet reads the same after the two, whatever arrives, exactly if it
  is empty or the window starts in the first half of the block (`SurvivesReadIff`); after `nice()`
  alone also if the window is no longer than the view's position (`SurvivesNiceIff`). A packet that
  fills more than half of the block is overwritten by what follows it (`ViewOverwritten`,
  `OverwrittenExample`).
- A record whose body is followed by anything but a line end is neither a packet nor an error: recv
  asks for more, whatever arrives, exactly behind such a body (`WaitsForEverIff`). It fails exactly at
  a line that is no header and at a record that goes over the limit (`ErrorIff`).
- `str_unescape` reads a hexadecimal pair as its value exactly if the second digit is not an upper case
  letter; the first may be (`HexReadIff`).
- A ZRANGE with a negative start or end, other than an end of -1, is sent on without its range, but with
  the option behind it (`RangeSentIff`).
- A length or count of a request is cast to int: one that is 2^32 too large is taken for the right one
  (`WrappedLength`); a negative length is refused and one that is too large is waited for
  (`LengthDecides`).
- For ZRANGE with a start that is not negative and an end from -1 on, the offset and size sent on are
  sure to mean the same ranks exactly if the end is -1 or at least the start minus one, and the size
  fits an int64 (`RangeKeptIff`). An end two below the start, an empty range, is sent on as an
  unlimited one (`EmptyRangeBecomesUnlimited`).
- A score bound is kept exactly if it is neither `+inf` as a lower nor `-inf` as an upper bound, no
  exclusive infinity, and, if exclusive, its integer neighbour fits an int (`LowerBoundKeptIff`,
  `UpperBoundKeptIff`); a whole range is kept exactly if both bounds are, or if it is empty before and
  after (`ByScoreSelectsSameMembers`).
- Without LIMIT the two score ranges are cut after two thousand million members (`ListKept`), and HKEYS and
  HVALS are, too (`AllKeysAskedFor`).
- A reply is one complete RESP value exactly if the response has the expected shape; the short answers
  `$0` and `*0` are not, nor is an error text with a line break (`OneReplyIff`).
- `send_resp` leaves its list of keys exactly for an HMGET without any argument that is answered "ok"
  with pairs behind it (`InRangeIff`, `HMGetWithoutArguments`). `SendResp` and the theorems about
  replies leave out that one case.
- A packet above 32 MiB can be sent but never received (`RoundTrip`), and an empty packet disappears
  (`EmptyPacketIsLost`).

## Model

| member | source | states |
|---|---|---|
| Text.ReadPrinted | src/util/strings.h:283-298 | strtol reads any printed integer back and stops right behind it, at any position and before any non-digit |
| Text.Int64RoundTrip | src/util/strings.h:251-320 | every int64 prints uncut into the 21-byte buffer, parses back to itself, and passes the whole-string test |
| Text.NumberBehindSpaces | src/util/strings.h:283-298 | strtol reads a number behind any white space and an optional sign, in front of any non-digit |
| Text.Saturates | src/util/strings.h:251-298 | a number out of range is read as the nearest int64, and exactly then errno is set |
| Text.LowerLetters | src/util/strings.h:60-63 | exactly the 26 letters change, each to its own lower case |
| Escape.StrEscape | src/util/strings.h:89-124 | the loop computes the escaped text of any byte string |
| Escape.StrUnescape | src/util/strings.h:140-191 | the index-juggling loop computes the unescaped text of any string, malformed escapes included |
| Escape.EscapeRoundTrip | src/util/strings.h:89-191 | unescaping undoes escaping on every byte string, in front of any other text |
| Escape.EscapedIsPrintable | src/util/strings.h:89-124 | every escaped byte lies between blank and tilde |
| Escape.EscapeDistributes | src/util/strings.h:89-124 | escaping distributes over concatenation |
| Escape.EscapeInjective | src/util/strings.h:89-124 | different byte strings have different escapes |
| Escape.EscapeForms | src/util/strings.h:93-122 | CR, LF, tab and backslash take two characters, other printable bytes one, all others four with lower case digits |
| Escape.EscapeIsDetermined | src/util/strings.h:93-191 | no other printable text of that form is read back as the byte |
| Escape.CEscapes | src/util/strings.h:149-171 | the letters a b t n v f r behind a backslash stand for the codes 7 to 13 |
| Escape.OtherEscapes | src/util/strings.h:172-186 | any other character but x stands for itself |
| Escape.HexReadIff | src/util/strings.h:130-183 | two hexadecimal digits are read as their value if and only if the second is not an upper case letter |
| Buffers.Buffer.constructor | src/util/bytes.cpp:8-13 | a new buffer is empty, at the start of a block of the given size |
| Buffers.Buffer.Nice | src/util/bytes.cpp:19-25 | the whole memory afterwards: nothing changes unless the window starts in the second half, and then only as many bytes as the window has, at the front; the contents stay and the copied regions never overlap |
| Buffers.Buffer.Grow | src/util/bytes.cpp:27-45 | a new, strictly larger block with the same bytes at the same offsets |
| Buffers.Buffer.MakeRoom | src/util/bytes.cpp:105-110 | the growth loop ends and equals its specification, which guarantees the room asked for and the same contents |
| Buffers.MakeRoomBound | src/util/bytes.cpp:27-45 | after the growth loop the block is at most the larger of its old size, 8192, and eight times what had to fit |
| BlockSizes.SizesOfABlock | src/util/bytes.cpp:27-45 | the sizes that a block goes through: 8, 8 K, 64 K, 512 K, and doubling from there |
| BlockSizes.ReclaimDecides | src/net/link.cpp:353-362 | the block grows exactly if it is full and cannot be compacted; one that is not full is left alone |
| BlockSizes.AppendRecordGrowsIff | src/util/bytes.cpp:103-110 | the block grows exactly if 17 bytes more than the record do not fit |
| BlockSizes.ReadAndWriteCompact | src/net/link.cpp:178-248 | after a read has prepared, or a write has ended, the contents start in the first half, and a first block has 8 K |
| Buffers.Buffer.Incr | src/util/bytes.h:155-157 | the bytes already written behind the contents become part of them |
| Buffers.Buffer.Decr | src/util/bytes.h:159-162 | exactly the first bytes leave the contents; memory is not touched |
| Buffers.Buffer.Append | src/util/bytes.cpp:140-150 | the contents are extended by the given bytes, after growing as far as needed |
| Buffers.LengthLine | src/util/bytes.cpp:112-113 | the 16-byte buffer never cuts the length line of a 32-bit size |
| Buffers.StoreRecord | src/util/bytes.cpp:112-123 | the three writes leave exactly length line, body and LF in the memory, and nothing before it changes |
| Buffers.Buffer.AppendRecord | src/util/bytes.cpp:103-126 | the contents are extended by one encoded record and nothing else changes |
| Buffers.Buffer.Reclaim | src/net/link.cpp:353-362 | a full buffer is compacted, and grown if that was not enough |
| ByteQueue.BufferIsQueue | src/util/bytes.h:119-178 | over every sequence of operations the window stays inside its block, the block never shrinks, and the contents are those of a plain byte queue |
| Views.SurvivesNiceIff | src/util/bytes.cpp:19-25 | after nice() alone a view behind the window reads the same, whatever the bytes, if and only if it is empty, nothing is moved, or it starts at or after the window's size |
| Views.PacketSurvivesNice | src/util/bytes.cpp:19-25 | all records of a received packet read the same after nice() alone when each view is out of reach |
| Views.SurvivesReadIff | src/net/link.cpp:178-203 | a view of a received packet reads the same after the next nice() and the read behind it, for every memory and everything that may arrive, if and only if it is empty or the window starts in the first half |
| Views.PacketSurvivesRead | src/net/link.cpp:178-203 | all records of a packet outlive the next read while the window starts in the first half |
| Views.ViewOverwritten | src/net/link.cpp:178-203 | a packet that fills more than half of the block is parsed, and then the next read changes what its view reads, whatever arrives |
| Views.OverwrittenExample | src/util/bytes.cpp:19-25 | an instance with 5000 bytes in a block of 8192 |
| Framing.SendEncodes | src/net/link.cpp:369-383 | send appends exactly the packet's encoding behind what is already buffered |
| Framing.ParseBounds | src/net/link.cpp:288-351 | a received packet is never empty, takes at least one byte and no more than are there, and at most the size limit plus a line end |
| Framing.ParseStable | src/net/link.cpp:262-367 | once recv has decided on any bytes, well-formed or not, further bytes never change the decision |
| Framing.ParseSpelled | src/net/link.cpp:288-351 | every text of the lenient grammar, whatever follows, yields its record bodies, or an error exactly when it exceeds the limit |
| Framing.ParseIffSpelled | src/net/link.cpp:288-351 | recv returns a packet if and only if the input starts with a text of the grammar within the limit |
| Framing.RoundTripAnyLineEnds | src/net/link.cpp:288-351 | any packet spelled with any mix of LF and CRLF after any blank lines is received as it was, up to the size limit |
| Framing.RoundTrip | src/net/link.cpp:295-351 | what send writes, followed by anything, is received as exactly that packet if it fits the limit, and as an error if not |
| Framing.PrefixNotReady | src/net/link.cpp:295-366 | on every proper prefix of a packet recv is not ready: no error, no shorter packet |
| Framing.DeliveredPacket | src/net/link.cpp:262-391 | whoever takes a packet off a stream that starts with a sent one gets that packet and keeps the rest |
| Framing.EmptyPacketIsLost | src/net/link.cpp:385-391 | an empty packet is a lone LF that the receiver skips; only the packet after it arrives |
| Framing.NoStall | src/net/link.cpp:353-366 | after recv has asked for more, the next read finds free space, and the contents are unchanged |
| Verdicts.ErrorIff | src/net/link.cpp:288-351 | recv fails if and only if, behind blank lines and whole records within the limit, the next line is no header or the next record goes over the limit |
| Verdicts.WaitsForEverIff | src/net/link.cpp:328-350 | recv asks for more whatever else arrives if and only if, behind blank lines and whole records, a body is followed by something that begins no line end |
| Streams.DrainExtends | src/net/link.cpp:262-367 | a receiver that calls recv until it asks for more: receiving a chunk after draining a stream equals draining both at once |
| Streams.FragmentationIndependence | src/net/link.cpp:262-367 | however an arbitrary stream is cut into chunks, that receiver ends with the same packets, rest and state |
| Kernels.CountDroppedIff | src/net/link.cpp:184-211 | the read loop returns no count although it has read bytes, exactly on a non-blocking link whose bytes are followed by the end or an error before the buffer is full |
| Kernels.BlockingReadReturns | src/net/link.cpp:178-212 | the return value of a read on a blocking link: -1 for an error, 0 for the end and for EWOULDBLOCK, else the bytes that came |
| Kernels.WriteManyTakes | src/net/link.cpp:214-248 | a write fails exactly if the connection breaks before everything has gone, and takes what the system was ready to take |
| Serving.ReceiveBounds | src/net/link.cpp:262-367 | in both formats a message makes the input shorter, no message leaves it as it was, and then the next read finds room |
| Serving.ServeNative | src/net/link.cpp:433-447 | response() on a native stream delivers the first packet of all it looked at and keeps the rest, or refuses malformed bytes, or stops with a read before which there was no packet |
| Serving.ServeRedis | src/net/link.cpp:433-447 | on a stream of Redis requests response() delivers the first one converted, with the errno that leaves, or refuses it, or stops with a read before which none was complete; the errno it was parsed with is the one at the start, or one that is not EINVAL |
| Responses.ServeConserves | src/net/link.cpp:433-447 | what a call has looked at, and what arrives behind it, is everything that was there and will arrive, in order |
| Responses.DeliversNext | src/net/link.cpp:433-447 | a packet that response() returns is the next one of the stream, whatever follows |
| Responses.ResponsesAreTheStream | src/net/link.cpp:433-447 | on a blocking link successive calls return the packets of everything that arrives, up to the first Redis request, then fail where recv refuses what comes next or stop with what is no packet left in the buffer |
| Responses.ResponsesIgnoreCuts | src/net/link.cpp:433-447 | the same bytes in any portions, with any interruptions, give the same messages and the same end |
| Responses.GivesUpOnMessageIff | src/net/link.cpp:178-212 | response() returns NULL with a whole message in its buffer if and only if the link does not block and the read that completed the message also met the end or an error |
| Responses.PacketGivenUp | src/net/link.cpp:195-200 | an instance: one packet and a close, returned by a blocking link and not by a non-blocking one |
| Fifo.ParseOfStream | src/net/link.cpp:262-367 | on a stream of packets cut at any byte, recv gives the next packet if it is complete and waits if not |
| Fifo.NextKeepsInv | src/net/link.cpp:178-391 | every step of two joined Links keeps: no failure, received is a prefix of sent, the bytes under way encode exactly the missing packets |
| Fifo.FifoSafety | src/net/link.cpp:178-391 | in every run of sends, partial writes, partial reads and recvs: no failure, FIFO order, conservation of every byte, and equality once nothing is under way |
| Fifo.DrainedMeansDelivered | src/net/link.cpp:262-367 | with nothing left to move, a recv that asks for more means that everything sent has been received |
| Fifo.CanDeliver | src/net/link.cpp:178-391 | from every state satisfying the invariant there is a run that delivers everything sent; no buffer gets stuck full |
| LinkPairs.LinkPair.Send | src/net/link.cpp:369-391 | send on a Link object is the system's step and keeps its invariant |
| LinkPairs.LinkPair.Write | src/net/link.cpp:214-248 | so is write, whatever the system call accepts |
| LinkPairs.LinkPair.Read | src/net/link.cpp:178-212 | so is a read that is handed the next bytes of the channel |
| LinkPairs.LinkPair.Recv | src/net/link.cpp:262-367 | so is recv, which never fails: its views read as the next packet that has not been received |
| RedisRequests.ScanRequestBounds | src/net/link_redis.cpp:509-567 | a parsed request has at least one argument and takes at least one byte, no more than are there |
| RedisRequests.RequestRoundTrip | src/net/link_redis.cpp:509-567 | an encoded request, followed by anything, is parsed into exactly its arguments and takes exactly its bytes, if and only if errno is not EINVAL |
| RedisRequests.ErrnoOnEntry | src/net/link_redis.cpp:523-551 | for every input the result depends on the errno on entry only if that is EINVAL, and then nothing with a heading is accepted |
| RedisRequests.PartialRequestWaits | src/net/link_redis.cpp:523-566 | on every non-empty proper prefix of a request the parser waits |
| RequestVerdicts.CountDecides | src/net/link_redis.cpp:509-548 | a count that is not positive is refused at once, and with a positive one as many arguments are read |
| RequestVerdicts.LengthDecides | src/net/link_redis.cpp:541-560 | behind any complete arguments a negative length is refused whatever follows, one beyond what has arrived is waited for, and any other is taken |
| RequestVerdicts.WrappedLength | src/net/link_redis.cpp:532-541 | a length 2^32 too large is taken for the right one |
| RedisCommands.ZAddKeepsPairs | src/net/link_redis.cpp:170-180 | ZADD with any number of pairs is sent on with the same pairs, swapped, in order; only a left-over last argument is dropped |
| RedisCommands.ArgumentsConservedIff | src/net/link_redis.cpp:120-199 | of every command that only moves its arguments about: the same arguments are sent on, each as often, if and only if their number fits; otherwise some are dropped and none is invented |
| CommandTable.NameSent | src/net/link_redis.cpp:48-146 | for every command the name that is sent on: 32 are renamed, all others keep theirs |
| CommandTable.ArgumentsStayInPlace | src/net/link_redis.cpp:138-199 | every argument keeps its place, except for the commands that exchange or rewrite theirs |
| Effects.SameEffect | src/net/link_redis.cpp:161-189 | for every store SET, SETEX, ZADD and ZINCRBY do to the data what the command sent on does |
| Effects.AllKeysAskedFor | src/net/link_redis.cpp:147-160 | HKEYS and HVALS ask for all keys, up to two thousand million |
| ErrnoCarriesOver.CommandInAnyCase | src/net/link_redis.cpp:330-343 | the letter case of the command does not matter |
| RankRanges.RangeKeptIff | src/net/link_redis.cpp:201-231 | for start >= 0 and end >= -1, the offset and size sent on mean the ranks that Redis selects under every meaning of sizes below -1, if and only if the end is -1 or at least start - 1 and the size fits an int64 |
| RankRanges.EmptyRangeBecomesUnlimited | src/net/link_redis.cpp:209-223 | an end two below the start selects nothing in Redis and everything from the start on as sent |
| RankRanges.RangeSentIff | src/net/link_redis.cpp:201-231 | for any texts as start and end: whether the range is sent on at all, and what of it, and that an option always is |
| ScoreRanges.LowerBoundKeptIff | src/net/link_redis.cpp:266-280 | the exact condition under which a rewritten lower bound admits the same integer scores |
| ScoreRanges.UpperBoundKeptIff | src/net/link_redis.cpp:281-295 | the same for upper bounds |
| ScoreRanges.SameScoresIff | src/net/link_redis.cpp:262-295 | two score ranges hold the same integers exactly if their limits agree or both are empty |
| ScoreRanges.ByScoreSelectsSameMembers | src/net/link_redis.cpp:232-309 | the zscan command sent on selects the members that ZRANGEBYSCORE selects in every set with integer scores, if and only if both bounds are kept or the range is empty before and after |
| ScoreRanges.RevByScoreSelectsSameMembers | src/net/link_redis.cpp:232-309 | the same for ZREVRANGEBYSCORE and zrscan, whose bounds come in the other order |
| ScoreLists.ListKept | src/net/link_redis.cpp:232-309 | in every sorted set and for every spelling of the options the members selected are those that Redis selects, LIMIT included, and without one the first two thousand million |
| ScoreRanges.BehindLimit | src/net/link_redis.cpp:240-257 | the two arguments behind LIMIT are offset and count whatever they are |
| ScoreRanges.ShortScoreRangeDropped | src/net/link_redis.cpp:234-264 | without two bounds only the name is sent |
| ScoreRanges.OptionOrder | src/net/link_redis.cpp:240-257 | WITHSCORES and LIMIT offset count give the same request in either order and any letter case |
| ScoreRanges.OptionOrderConverted | src/net/link_redis.cpp:232-309 | so the converted command and the errno it leaves are the same in either order |
| ScoreRanges.ScanFindsWithScores | src/net/link_redis.cpp:240-257 | scores are requested exactly when WITHSCORES is among the options |
| ScoreReplies.ScoresExactlyWhenAsked | src/net/link_redis.cpp:470-501 | the decoded reply holds members and scores if WITHSCORES was given, and members alone otherwise |
| ScoreReplies.RangeScoresExactlyWhenAsked | src/net/link_redis.cpp:470-501 | the same for ZRANGE and ZREVRANGE, where the option stands right behind the range |
| ReplyDecoding.RespondDecodes | src/net/link_redis.cpp:356-507 | for every kind of request, a response of the expected shape becomes one reply that a RESP decoder reads with the intended meaning, stopping right behind it |
| ReplyDecoding.OneReplyIff | src/net/link_redis.cpp:356-507 | send_resp writes exactly one RESP reply if and only if the response has the expected shape |
| CommandTable.ListAnswered | src/net/link_redis.cpp:470-501 | KEYS, LRANGE, HGETALL, HKEYS and HVALS: the decoded reply is every item of the response, in order |
| CommandTable.IntegerAnswered | src/net/link_redis.cpp:456-469 | 32 commands answer with the integer of the response |
| CommandTable.TextAnswered | src/net/link_redis.cpp:444-455 | ten commands answer with the text of the response |
| CommandTable.DoneAnswered | src/net/link_redis.cpp:382-397 | PONG to PING, OK to five commands that store something and to any that is not in the table |
| CommandTable.OtherStatusesAnswered | src/net/link_redis.cpp:356-381 | whatever the request was: a nil, an error with its message, or an error for an unknown status |
| CommandTable.ShortAnswers | src/net/link_redis.cpp:398-469 | the exact text that is written when the value is missing |
| ReplyDecoding.HeadingTooSmall | src/net/link_redis.cpp:483-501 | without scores and with an odd number of items the array heading is one short |
| ReplyDecoding.MergeIsLookup | src/net/link_redis.cpp:415-440 | the two-pointer loop is a pointwise lookup for every store and every list of keys, repetitions included |
| ReplyDecoding.MergeUsesResponseUp | src/net/link_redis.cpp:415-440 | and it uses up the whole response |
| ReplyDecoding.MGetEndToEnd | src/net/link_redis.cpp:398-443 | MGET, from the request's arguments to the decoded reply: one entry per key, its value or nil, in order |
| ReplyDecoding.HMGetEndToEnd | src/net/link_redis.cpp:398-443 | the same for HMGET, whose keys start one argument later |
| KeyRanges.InRangeIff | src/net/link_redis.cpp:398-412 | for every request and response the key iterator starts inside the command, unless it is an HMGET without arguments answered with pairs |
| KeyRanges.HMGetWithoutArguments | src/net/link_redis.cpp:408-412 | that request as bytes: it is parsed, accepted and converted, and its keys start outside the command |
| ErrnoCarriesOver.NextRequestRefusedIff | src/net/link_redis.cpp:532-535 | after any request the next well-formed one is refused exactly when the last text read as a number was none and no other errno covered that up, or no number was read and errno was EINVAL before |
| ErrnoCarriesOver.ErrnoOfConversion | src/net/link_redis.cpp:120-317 | over every command, convert_req changes errno only by the texts it reads as numbers, in order |
| ErrnoCarriesOver.RefusedAfterBadRange | src/net/link_redis.cpp:532-535 | two instances: after ZRANGE k 0 end, and after ZRANGEBYSCORE k (a (b, any well-formed request is refused |
| RedisSessions.PipelineHandled | src/net/link_redis.cpp:319-354 | recv called again and again on a pipelined stream, cut anywhere in its last request, returns exactly the converted requests up to and including the first that leaves EINVAL, and keeps the rest |
| RedisSessions.FirstInvalid | src/net/link_redis.cpp:319-354 | the number of requests handled is the number of those before errno is EINVAL for the first time |
| RedisSessions.AllHandledIff | src/net/link_redis.cpp:319-354 | all requests come out if and only if errno is not EINVAL at first and no request but the last leaves it by what it reads as numbers |
| RequestStreams.RequestDelivered | src/net/link.cpp:433-447 | on a blocking link a well-formed request at the start of what arrives is delivered, converted, and exactly what is behind it stays, however it is cut, unless errno is EINVAL when it is parsed |
| RequestStreams.ResponsesAreTheRequests | src/net/link.cpp:433-447 | successive calls on a pipelined stream, cut anywhere and broken off anywhere in its last request, return at least the converted requests up to and including the first that leaves EINVAL, exactly those if nothing interrupts; the rest is refused only where EINVAL is left and waited for otherwise |
| RequestStreams.AllRequestsAnswered | src/net/link.cpp:433-447 | all requests are returned, and the unfinished one is waited for, if none leaves EINVAL, whatever the cuts and interruptions |
| RequestStreams.InterruptionLetsThrough | src/net/link_redis.cpp:532-535 | an instance: the request behind ZRANGE k 0 end is refused if it arrives undisturbed and answered if the read that brings it was interrupted |
| RedisLinks.ScanLoop | src/net/link_redis.cpp:509-567 | the parser's loop returns -1, 0 or 1 as the specification says, and its views are the arguments |
| RedisLinks.RedisLink.ParseReq | src/net/link_redis.cpp:509-567 | only a complete request leaves the buffer, and its views read as its arguments |
| RedisLinks.RedisLink.PushZAdd | src/net/link_redis.cpp:170-180 | the ZADD loop never leaves the argument list and pushes the swapped pairs |
| RedisLinks.RedisLink.PushByScore | src/net/link_redis.cpp:232-309 | the option loop and the bound rewriting push the specified command and leave the specified errno |
| RedisLinks.RedisLink.ConvertReq | src/net/link_redis.cpp:120-317 | every command is rewritten as specified, including the errno its number conversions leave |
| RedisLinks.RedisLink.RecvReq | src/net/link_redis.cpp:319-354 | an error leaves the buffer alone, a wait makes room, a request is taken, converted and handed out as views into recv_string; without a request the one to be answered stays |
| RedisLinks.WellFormedRequestHandled | src/net/link_redis.cpp:319-354 | a well-formed request followed by anything is converted and leaves the rest in the buffer, unless errno was EINVAL |
| RedisLinks.SendMerged | src/net/link_redis.cpp:398-443 | the iterators stay in range and the loop appends the heading and one entry per requested key |
| RedisLinks.SendItems | src/net/link_redis.cpp:491-501 | the loop with its extra increment appends all items, or every other one |
| RedisLinks.RedisLink.SendResp | src/net/link_redis.cpp:356-507 | the output grows by exactly the specified reply |
| Links.Link.constructor | src/net/link.cpp:23-42 | a new link has two empty 8-byte buffers and no Redis state |
| Links.Link.Send | src/net/link.cpp:369-383 | a native packet is appended encoded, a Redis reply printed, an empty packet ignored |
| Links.Link.Read | src/net/link.cpp:178-212 | exactly the bytes that the system delivers are appended, in order, with the return value, errno and rest of the script that the read loop determines; the whole memory afterwards; no positive count means the system stopped, never lack of room |
| Links.Link.Write | src/net/link.cpp:214-248 | exactly the bytes that the system accepts leave the buffer, in order, with the return value and errno that the write loop determines |
| Links.Link.Flush | src/net/link.cpp:250-260 | bytes sent plus bytes buffered are conserved; -1 is returned if and only if the connection breaks before the system has taken everything, and then all that it was ready to take has gone |
| Links.PacketLoop | src/net/link.cpp:262-351 | recv's loop decides as the specification does and its views are the record bodies |
| Links.Link.RecvNative | src/net/link.cpp:262-367 | after a packet has been taken off the buffer its views still read as its records; otherwise the contents stay |
| Links.Link.Recv | src/net/link.cpp:262-367 | result, buffer and errno are those of the specification in both formats, the views read as its texts, and a Redis request leaves its description and its command for the reply |
| Links.Link.Response | src/net/link.cpp:433-447 | for both formats the answer of the specification: the first message of everything received, or a refusal, or the read that stopped - never for lack of room - with what was delivered by it; on a native stream the Redis state stays as it was |
| Client.ClientImpl.Request | src/SSDB_impl.cpp:70-87 | the whole request is sent before waiting, unless the connection breaks before; resp_ holds exactly the records of the first packet received, or stays as it was with the reason for the failure; on a native stream the link is fit for the next request |
| Client.ClientImpl.MultiZSet | src/SSDB_impl.cpp:479-491 | the same for the flattened map, sent as one command |
| Client.RebuildFlattened | src/SSDB_impl.cpp:479-491 | a flattened map of int64 values determines the map, in whatever order it was listed |
| Client.MapSurvivesTheWire | src/SSDB_impl.cpp:479-491 | a map flattened, framed and parsed is rebuilt exactly, whatever follows, within the packet limit |
| MapsStored.MultiZSetStores | src/SSDB_impl.cpp:479-491 | the scores of the map replace or join those of the sorted set, in whatever order it is listed |

## Left out

- Links.Link.Send: the overload for Bytes, which does not skip empty packets, and the fixed-arity overloads are not separate methods; their bytes are those of `Encode`.
- RedisLinks.RedisLink.SendResp: says nothing about a bare HMGET that is answered "ok" with pairs; the code's iterator then leaves its vector, and C++ gives that no result.
- Fifo.FifoSafety: one direction of the channel; the other direction uses the other two buffers and is the same system again. A stream that starts with a star never arises in it.
- RedisRequests.PartialRequestWaits: states nothing about malformed requests; there strtol may read across the line end, so more bytes can change what was decided.
- RankRanges.RangeKeptIff: says nothing of negative starts and of ends below -1; RangeSentIff says what is sent for them.
- ScoreRanges.ByScoreSelectsSameMembers: fractional scores and the spelling "inf" without a sign are not covered.
- ScoreLists.ListKept: a negative count, which Redis takes for "all", is sent on as it is; what SSDB makes of it is not known here.
- Allocation failure and 32-bit overflow of buffer sizes; sizes are mathematical integers.
- Socket set-up and options, `accept`, `close`: system calls only.
- `Buffer::read_record`, which nothing calls and which has no meaning as a queue operation.
- The comparison operators of `Bytes`, floating-point text, `Decoder` and the small string helpers that the wire layer does not use.
- `multi_set` and `multi_hset`, which flatten like `multi_zset` but without numbers; `_read_list`, `_read_int64`, `Status` and the one-line command wrappers.
- Redis replies that come later than the next request: `req_desc` and `recv_string` describe the latest request only, in the code as in the model.
- The Lua binding and the FFI layer above the client.
