# A verified model of galay-rpc

galay-rpc is a header-only C++ RPC framework with a binary protocol of its own: a 16-byte big-endian header followed by a
request, response or stream body. This project models what lies between raw bytes and messages, and the protocols built on
top of it, and proves that the fast forms agree with the simple ones on every input, every fragmentation and every
interleaving.

The modules, from the bottom up:

- `Wire`, `Codec`: integers and byte order, flags, header, the encoders and the contiguous decoder `RpcCodec`.
- `Parser`: what the zero-copy parsers decide about the bytes readable so far, against `RpcCodec`.
- `Memory`, `ZeroCopy`: scatter/gather lists, borrowed payload views, `serialize()` and `tryParse*Message` as loops over
  memory.
- `Ring`, `Net`: the ring buffer as a class over an array, and a socket whose reads and writes move arbitrary positive
  amounts, or fail, according to an arbitrary plan.
- `Awaiting`: the schedule-free meaning of awaiting one message, or all messages, of a byte stream.
- `ReadMachine`, `WriteMachine`: `RpcRingBufferReadMachine`, `RpcWritevMachine` and their states, proved to mean exactly
  that whatever the kernel does.
- `Service`, `RouteCache`, `Server`: method tables, the per-connection route cache, and the unary connection loop over the
  real reader, cache and writer.
- `Client`, `Pipeline`: sequential calls over the real reader and writer against what the server answers, and the
  pipelining client and the server over FIFO queues.
- `Runs`, `StreamTrace`, `StreamServer`: what can happen on a stream connection, as a state machine with arbitrary handlers,
  and the stream server's loop over the real reader and writer, which is such a machine under every read and write plan.
- `EchoTrace`, `StreamEcho`, `EchoResumption`: the echo handler, what the server owes for a byte stream, when what it sends
  stays a prefix of that although reads or writes fail, and runs in which it does not.
- `StreamProtocol`: the stream server against the windowed client over FIFO channels, unbounded and bounded.
- `EchoRuns`, `StreamClient`: those runs joined to the byte streams of the echo server, and the windowed client itself over
  the real reader and writer.
- `Registry`, `RegistryResults`: the service registries and their watchers, the asynchronous one as coroutines around a
  mutex, and what its callers read from the result fields the coroutines share.

Conventions. Error results are compared by code; message texts are not modelled. A reading state class template becomes the
sum type `Awaiting.Reader`. The only memory that is overwritten while messages refer to it is the connection's ring; its
contents are passed around as a value `mem`, so a borrowed payload denotes different bytes once the ring has been written
to, and every contract that promises bytes says at which moment of the ring it does. Where the guides under docs/ describe
reads that return "nothing yet" and must be repeated in a loop, the headers do not do that, and the headers are followed.

## Model

| member | source | states |
|---|---|---|
| Wire.ByteOrderIsPortable16 | galay-rpc/protoc/rpc_base.h:38-53 | on either kind of machine, storing `rpcHtons(v)` gives network order, and converting back gives `v` |
| Wire.ByteOrderIsPortable32 | galay-rpc/protoc/rpc_base.h:25-49 | the same for 32 bits |
| Wire.FlagsRoundTrip | galay-rpc/protoc/rpc_base.h:94-118 | mode and end mark survive encoding; re-encoding decoded flags keeps exactly the low three bits |
| Wire.FlagBits | galay-rpc/protoc/rpc_base.h:73-100 | the numbers of the four modes and the end mark in the flags byte |
| Wire.LoadingIsPortable | galay-rpc/protoc/rpc_base.h:25-53 | on either kind of machine, copying in and converting gives the network-order integers, and loading inverts storing |
| Wire.SerializeHeader | galay-rpc/protoc/rpc_message.h:70-82 | on either kind of machine, fields converted and copied out one by one leave each field at its offset, in network order, in the first 16 bytes, and the rest of the buffer alone |
| Wire.DeserializeHeader | galay-rpc/protoc/rpc_message.h:87-109 | on either kind of machine, fields copied in and converted one by one are those at the offsets of the wire form, and there is a header exactly when the magic is right and the body length at most 16 MiB |
| Wire.HeaderLayout | galay-rpc/protoc/rpc_message.h:70-82 | where each field of a header lies on the wire: magic, four single bytes, request id at 8, body length at 12 |
| Wire.DecodedLayout | galay-rpc/protoc/rpc_message.h:87-109 | an accepted header has the four magic bytes in front and a body length of at most 16 MiB at offset 12, and no other is accepted; its fields are those at these offsets |
| Wire.HeaderRoundTrip | galay-rpc/protoc/rpc_message.h:70-109 | for every header and whatever follows it, decoding returns the header exactly when the magic is right and the body is at most 16 MiB |
| Wire.HeaderInverse | galay-rpc/protoc/rpc_message.h:87-109 | re-encoding any accepted header reproduces its 16 bytes |
| Codec.NamesRoundTrip | galay-rpc/protoc/rpc_message.h:272-296 | two length-prefixed names decode to themselves and the right rest if and only if both are at most 65535 bytes |
| Codec.StreamInitRoundTrip | galay-rpc/kernel/rpc_stream.h:286-337 | a stream-init body decodes to its route if and only if both names fit |
| Codec.InitLayout | galay-rpc/kernel/rpc_stream.h:296-308 | where the two names and their lengths lie in a stream-init body, the service first |
| Codec.RequestRoundTrip | galay-rpc/protoc/rpc_message.h:228-315 | decoding an encoded request, with anything behind it, returns it if and only if names and body fit; `messageLength` is then its length |
| Codec.ResponseRoundTrip | galay-rpc/protoc/rpc_message.h:459-516 | the same for responses |
| Codec.RequestLayout | galay-rpc/protoc/rpc_message.h:228-267 | where each part of a request lies on the wire: header with type 1 and its flags, then both names behind their lengths, the service first, then the payload |
| Codec.ResponseLayout | galay-rpc/protoc/rpc_message.h:459-488 | the same for a response: type 2, its code at offset 16, then the payload |
| Codec.FrameLayout | galay-rpc/kernel/rpc_stream.h:458-493 | the same for a stream frame: its type, no flags, the id of its stream, and its payload from offset 16 |
| Codec.KnownRequest | galay-rpc/protoc/rpc_message.h:228-267 | one whole request, byte for byte |
| Codec.KnownResponse | galay-rpc/protoc/rpc_message.h:459-488 | one whole response, byte for byte |
| Codec.KnownFrame | galay-rpc/kernel/rpc_stream.h:458-493 | one whole CANCEL frame, byte for byte |
| Codec.DecodedRequestShape | galay-rpc/protoc/rpc_codec.h:61-91 | an accepted request always fits, and its body is exactly the encoding of the decoded fields |
| Codec.RequestReencodes | galay-rpc/protoc/rpc_codec.h:61-91 | re-encoding an accepted request reproduces the consumed bytes if and only if version is 1, the reserved byte 0 and no flag above bit 2 is set |
| Codec.ResponseReencodes | galay-rpc/protoc/rpc_codec.h:99-129 | the same for responses |
| Parser.ParseNamesAgrees | galay-rpc/kernel/rpc_conn.h:183-231 | reading length fields at a cursor into the whole buffer, possibly beyond the message, gives the verdict of reading the body alone |
| Parser.RequestParserAgreesWithCodec | galay-rpc/kernel/rpc_conn.h:152-232 | on every byte string: incomplete exactly below the header or the declared length, otherwise the verdict, code, fields and length of `RpcCodec::decodeRequest`, apart from bodies above the reader's limit, which are refused |
| Parser.ResponseParserAgreesWithCodec | galay-rpc/kernel/rpc_conn.h:242-297 | the same for responses |
| Parser.RequestParserStable | galay-rpc/kernel/rpc_conn.h:156-232 | once bytes are parsed or rejected, every extension gets the same message and length or the same error code |
| Parser.ResponseParserStable | galay-rpc/kernel/rpc_conn.h:246-297 | the same for responses |
| Memory.ReadableBytes | galay-rpc/kernel/rpc_conn.h:48-54 | the total is the length of what the vectors denote |
| Memory.CopyFromIovecs | galay-rpc/kernel/rpc_conn.h:64-90 | the requested slice of the gathered bytes across any number of vectors, or failure exactly when it runs past the end |
| Memory.PayloadViewFromIovecs | galay-rpc/kernel/rpc_conn.h:100-142 | a view that denotes the requested slice without copying, over any number of vectors; it fails exactly when the slice runs past the end or lies in more than two vectors |
| Memory.CollectView | galay-rpc/kernel/rpc_conn.h:112-139 | the loop collects a prefix of the wanted bytes, all of them or all there are, and gives up exactly when a third piece is needed |
| Memory.CollectRound | galay-rpc/kernel/rpc_conn.h:112-139 | one round skips a vector or takes its part of the range, keeping what is collected, what is to come and the number of pieces in step |
| Memory.Materialize | galay-rpc/protoc/rpc_message.h:318-341 | the same bytes, now owned, whatever later happens to the ring memory |
| ZeroCopy.SerializeRequest | galay-rpc/protoc/rpc_message.h:228-267 | on either kind of machine, the buffer filled field by field is the wire form of the request, whether its payload is owned or a two-segment borrow |
| ZeroCopy.SerializeResponse | galay-rpc/protoc/rpc_message.h:459-488 | the same for responses |
| ZeroCopy.ReadHeader | galay-rpc/kernel/rpc_conn.h:160-168 | a header split across vectors decodes as if contiguous |
| ZeroCopy.TryParseName | galay-rpc/kernel/rpc_conn.h:183-199 | a name is returned exactly when its length field is readable and it ends within the message, and then it is that slice |
| ZeroCopy.TryParseRequestMessage | galay-rpc/kernel/rpc_conn.h:152-232 | wherever at most two vectors split the bytes, the verdict is that of the parser on the whole, and the message borrows its payload |
| ZeroCopy.TryParseResponseMessage | galay-rpc/kernel/rpc_conn.h:242-297 | the same for responses |
| Ring.RingBuffer.GetReadIovecs | galay-rpc/kernel/rpc_conn.h:346-352 | at most two vectors that denote the readable bytes in order |
| Ring.RingBuffer.GetWriteIovecs | galay-rpc/kernel/rpc_await.h:74-84 | at most two vectors that cover all the free space |
| Ring.RingBuffer.Produce | galay-rpc/kernel/rpc_await.h:151-154 | the readable bytes grow by what the write window holds; memory is not touched |
| Ring.RingBuffer.Consume | galay-rpc/kernel/rpc_conn.h:366-366 | the readable bytes lose a prefix; memory is not touched |
| Ring.RingBuffer.Readv | galay-rpc/kernel/rpc_await.h:317-319 | the only write to ring memory fills the window in order and leaves the readable bytes alone |
| Ring.BorrowedBytesAfterReceive | galay-rpc/kernel/rpc_conn.h:216-231 | exactly which bytes of a borrowed stretch one write to the ring overwrites: byte i survives until `free + i` bytes have arrived |
| Ring.OverwriteTwice | galay-rpc/kernel/rpc_await.h:151-154 | reads that do not come full circle add up to one |
| Awaiting.WaitsExactlyBelowDemand | galay-rpc/kernel/rpc_conn.h:340-368 | every reader waits exactly while it has fewer bytes than it needs at once, and never consumes more than it has |
| Awaiting.StepStable | galay-rpc/kernel/rpc_conn.h:340-421 | no reader's decision changes when more bytes arrive |
| Awaiting.AwaitStep | galay-rpc/kernel/rpc_await.h:301-320 | one parsing attempt on any buffered prefix leaves the final outcome of the await unchanged |
| Awaiting.AwaitEncoded | galay-rpc/kernel/rpc_await.h:124-131 | the exact capacity bound: an encoded message is delivered, leaving exactly what follows, when the ring has the space its reader needs; otherwise the await ends in INTERNAL_ERROR and leaves everything, or, for a stream frame whose header was read, the body and what follows |
| Awaiting.AwaitEncodedFrame | galay-rpc/kernel/rpc_stream.h:366-430 | for stream frames the bound is the larger of header and body, since the header is released first; a body above it stays behind without its header |
| Awaiting.AwaitPart | galay-rpc/kernel/rpc_conn.h:340-421 | of a message that arrives only in part a whole-message reader delivers and consumes nothing |
| Awaiting.AwaitPartOfBody | galay-rpc/kernel/rpc_stream.h:387-415 | of a frame whose body arrives only in part the stream reader takes the header and leaves that part behind |
| Awaiting.EndBodyIsLeftBehind | galay-rpc/kernel/rpc_stream.h:394-399 | a body behind an END or CANCEL header is not consumed and becomes the start of the next read, for every such frame |
| Awaiting.ExpectedRefusesOthers | galay-rpc/kernel/rpc_client.h:76-110 | a response with another id than the one expected is refused with INVALID_RESPONSE and stays where it is |
| Awaiting.BadHeaderIsRefused | galay-rpc/kernel/rpc_conn.h:160-177 | what each reader reports when the header has no magic, too long a body, another type or more than the limit, stated on the bytes; nothing is consumed |
| Awaiting.BadBodyIsRefused | galay-rpc/kernel/rpc_conn.h:183-231 | a whole message whose names run past its end, or that has no room for a code, is refused with DESERIALIZATION_ERROR; nothing is consumed |
| Awaiting.DeliversAll | galay-rpc/kernel/rpc_conn.h:340-368 | messages sent back to back come out unchanged and in order, and what follows is read as if it had come alone |
| Awaiting.SessionOf | galay-rpc/kernel/rpc_conn.h:340-421 | reading a stream of encoded messages to its end delivers exactly those messages |
| Awaiting.AbandonedBodyIsLost | galay-rpc/kernel/rpc_stream.h:387-424 | a stream read abandoned after its header was consumed is never made up for by a fresh reader: item and remaining bytes together always differ |
| ReadMachine.AwaitAttempt | galay-rpc/kernel/rpc_stream.h:366-425 | an attempt, including the move from header to body within it, does not change what the await comes to |
| ReadMachine.TryParseWhole | galay-rpc/kernel/rpc_client.h:76-110 | a whole-message read state decides as specified; a response with an unexpected id is refused |
| ReadMachine.Machine.ParseWhole | galay-rpc/kernel/rpc_conn.h:340-368 | all or nothing: the ring is left alone unless a whole message is delivered, and then loses exactly that message |
| ReadMachine.Machine.ParseFrameHeader | galay-rpc/kernel/rpc_stream.h:374-408 | the header phase of the stream reader: waits, fails, delivers a bodyless frame, or moves on, having consumed the header |
| ReadMachine.Machine.ParseFrameBody | galay-rpc/kernel/rpc_stream.h:410-427 | the body phase: waits, or delivers a borrowed body, consumes it and returns to the header phase |
| ReadMachine.Machine.ParseFromRingBuffer | galay-rpc/kernel/rpc_stream.h:366-430 | phase, ring contents and result after any call, for every kind of reader |
| ReadMachine.Machine.PrepareReadWindow | galay-rpc/kernel/rpc_await.h:124-131 | there is a window to read into exactly when the ring is not full |
| ReadMachine.Machine.Advance | galay-rpc/kernel/rpc_await.h:301-320 | completes with the parser's result, or with INTERNAL_ERROR on a full ring, and otherwise waits on a window that is not empty |
| ReadMachine.Machine.OnRead | galay-rpc/kernel/rpc_await.h:323-338 | an error or a closed peer ends the await and changes no byte; anything else becomes readable |
| ReadMachine.Machine.Fill | galay-rpc/kernel/rpc_await.h:317-338 | one completed read moves bytes from the network to the ring and changes neither their order nor their number |
| ReadMachine.Machine.Probe | galay-rpc/kernel/rpc_await.h:301-320 | an `advance` completes with the outcome the bytes determine, or moves the read at most past its header and leaves that outcome unchanged; and what it does depends on the ring alone |
| ReadMachine.Machine.Wait | galay-rpc/kernel/rpc_await.h:323-338 | a read is given up, fails, finds the peer gone or fills some of the ring; none of these loses a byte, and a read that ends here reports REQUEST_TIMEOUT, the code of the network error, or CONNECTION_CLOSED |
| ReadMachine.GrowthSpares | galay-rpc/kernel/rpc_conn.h:228-230 | a payload borrowed before a read of any number of pieces: exactly which of its bytes are still there after it, for up to a ringful of arrivals |
| ReadMachine.Machine.Receive | galay-rpc/kernel/rpc_await.h:301-338 | for every split of the incoming bytes and every ring position, a completed await yields the outcome the bytes alone determine; an interrupted one has lost nothing, reports the error that interrupted it, and a whole-message reader has not moved |
| ReadMachine.ReceiveOne | galay-rpc/kernel/rpc_conn.h:1033-1035 | one read with a fresh state is the first step of the session the bytes determine |
| ReadMachine.ReadMessage | galay-rpc/kernel/rpc_conn.h:1033-1035 | the delivered message borrows consumed ring memory and denotes the specified value at that moment; an interrupted read says in which phase it stopped, with the code of what error, and what it left; one whose first network read would fail sees the ring alone; ring memory has only grown by what arrived |
| ReadMachine.ReceiveAll | galay-rpc/kernel/rpc_conn.h:340-421 | repeated reads with any of them failing or abandoned at a wait point deliver a prefix of the specified messages; resuming with fresh readers delivers the same later ones |
| ReadMachine.ReceiveEncoded | galay-rpc/kernel/rpc_await.h:301-338 | fragmentation independence: any messages that fit, however split and wherever the ring wraps, are delivered exactly and in order |
| WriteMachine.RequestIovecs | galay-rpc/kernel/rpc_conn.h:530-582 | the gather list borrows the payload, has no empty vector and denotes what `serialize()` writes |
| WriteMachine.ResponseIovecs | galay-rpc/kernel/rpc_conn.h:611-644 | the same for responses |
| WriteMachine.FrameIovecs | galay-rpc/kernel/rpc_stream.h:458-493 | the same for control and data frames |
| WriteMachine.InitIovecs | galay-rpc/kernel/rpc_stream.h:501-528 | the same for STREAM_INIT frames |
| WriteMachine.ConsumeWritevIovecs | galay-rpc/kernel/rpc_await.h:38-65 | what remains denotes exactly the unwritten bytes, and no empty vector appears |
| WriteMachine.Machine.Advance | galay-rpc/kernel/rpc_await.h:372-391 | completes as soon as nothing is left, otherwise offers all that is left |
| WriteMachine.Machine.OnWrite | galay-rpc/kernel/rpc_await.h:399-417 | errors and zero-byte writes fail the send without dropping anything; a positive write removes exactly that many bytes |
| WriteMachine.Machine.Transmit | galay-rpc/kernel/rpc_await.h:372-417 | sent plus remaining bytes is conserved and the sent part strictly grows |
| WriteMachine.Machine.Round | galay-rpc/kernel/rpc_await.h:372-417 | one step of a send leaves exactly the rest of the delivery that the write plan determines, and a failure carries the code of the refused write |
| WriteMachine.Machine.Send | galay-rpc/kernel/rpc_await.h:372-417 | under any partial writes and failures the bytes sent are the prefix of the message that the write plan lets through, all of it exactly when the send succeeds; otherwise the code is that of the write that was refused |
| WriteMachine.SendMessage | galay-rpc/kernel/rpc_conn.h:530-644 | the same for whole messages, against the wire form of what the message denotes while it is being sent |
| Service.RegisterFinds | galay-rpc/kernel/rpc_service.h:80-122 | a registration changes the lookup of exactly its own name and mode |
| Service.RegisterRefines | galay-rpc/kernel/rpc_service.h:241-266 | the three tables answer every lookup with the last handler registered for exactly that pair |
| Service.RpcService.RegisterMethodByMode | galay-rpc/kernel/rpc_service.h:255-266 | the tables keep refining the registration history, which grows by this registration |
| Service.RpcService.RegisterStreamMethod | galay-rpc/kernel/rpc_service.h:215-217 | the same for stream sessions |
| Service.RpcService.MethodNames | galay-rpc/kernel/rpc_service.h:127-145 | every registered name exactly once |
| Service.AddNames | galay-rpc/kernel/rpc_service.h:130-143 | one of its loops adds exactly the names no earlier table had, whatever the iteration order |
| Service.MethodRoute | galay-rpc/kernel/rpc_server.h:318-331 | a request is routed to the last handler registered for exactly its service, method and mode; otherwise code 2 says that the service is missing and code 3 the method |
| Service.StreamRoute | galay-rpc/kernel/streamsvc.h:184-196 | a stream is routed to the last handler registered for sessions of exactly its service and method, whatever is registered for calls; otherwise code 2 or 3 |
| RouteCache.HashAppend | galay-rpc/kernel/rpc_server.h:220-226 | the loop folds the bytes left to right, for any mixing function |
| RouteCache.BuildRouteHash | galay-rpc/kernel/rpc_server.h:228-239 | the hash folds service, separator, method and mode |
| RouteCache.HashOrder | galay-rpc/kernel/rpc_server.h:228-239 | the order of folding, spelt out for names of two bytes each |
| RouteCache.EmptyRouteHash | galay-rpc/kernel/rpc_server.h:228-239 | the hash of the key of an unused slot, modulo 2^64; it is not the stored 0 |
| RouteCache.LastAtGrows | galay-rpc/kernel/rpc_server.h:308-309 | how the newest insertion of each slot moves under round-robin eviction |
| RouteCache.Cache.FindCachedHandler | galay-rpc/kernel/rpc_server.h:276-292 | nothing exactly when no slot hits, otherwise the handler the uncached lookup gives; only the last-hit pointer moves |
| RouteCache.Cache.UpdateRouteCache | galay-rpc/kernel/rpc_server.h:294-316 | soundness and exact contents are kept, and with a non-zero empty-key hash the in-place branch is never taken |
| RouteCache.Cache.Insert | galay-rpc/kernel/rpc_server.h:308-315 | the slots hold exactly the last eight resolved misses in round-robin position, with distinct keys |
| RouteCache.Cache.NotRecent | galay-rpc/kernel/rpc_server.h:241-249 | a key that hits no slot is not among the last eight misses |
| RouteCache.Cache.HitIsRecent | galay-rpc/kernel/rpc_server.h:241-249 | a key that hits a slot is among them |
| RouteCache.Cache.Route | galay-rpc/kernel/rpc_server.h:459-485 | transparency: for every history and every hash function the handler or error is that of the uncached lookup; a route is added exactly when it resolves and is not among the last eight |
| Server.Handle | galay-rpc/kernel/rpc_server.h:454-490 | the response carries the request's id and mode and the end mark; the code of a missing route and nothing else, or the handler's code and data; an echoed payload is the request's own, still borrowed |
| Server.RespondBelongs | galay-rpc/kernel/rpc_server.h:454-490 | the response to any request, field by field: id, mode, end mark, code, and the payload of the request if the handler echoes it |
| Server.AnswerOne | galay-rpc/kernel/rpc_server.h:454-509 | routing, handling and sending write no ring memory, so the bytes sent are the answer to the request as it was read; the connection closes with the code of the refused write |
| Server.ServeOne | galay-rpc/kernel/rpc_server.h:433-509 | one iteration reads the first request of the stream and sends a prefix of its answer, all of it unless something fails |
| Server.HandleConnection | galay-rpc/kernel/rpc_server.h:421-520 | whatever the kernel does, the bytes sent are a prefix of one answer per request in order, and all of them if nothing fails |
| Server.AnswerStreamStep | galay-rpc/kernel/rpc_server.h:433-509 | sending part of the first answer stays within what is owed; sending all of it leaves the rest |
| Server.Conversation | galay-rpc/kernel/rpc_server.h:433-509 | across both byte streams, each pipelined request gets exactly one response, in order, with its id, mode and end mark, the code its handler chose, and its own payload back if the handler echoes, else the handler's bytes; or the code of a missing route and no payload |
| Client.RpcClient.CallWithMode | galay-rpc/kernel/rpc_client.h:288-356 | one call takes the next id, sends the request, reads one response and compares id, then mode; a failed call consumes nothing; each outcome is tied to the bytes read, and a failed send to the refused write |
| Client.CallOnWire | galay-rpc/kernel/rpc_client.h:303-312 | a request reader gets from the bytes of a call the id and the service, method, mode, end mark and payload it was made with, and they lie where a request has them |
| Client.MatchMeans | galay-rpc/kernel/rpc_client.h:338-356 | which responses end a call: another id is a mismatch, then another mode, and any other response is the result |
| Client.RequestsInOrder | galay-rpc/kernel/rpc_client.h:303-309 | calls in turn are made under consecutive ids modulo 2^32 |
| Client.NextAnswer | galay-rpc/kernel/rpc_client.h:325-336 | of any prefix of the server's answers a call reads the next answer, or finds the connection closed |
| Client.CallOnce | galay-rpc/kernel/rpc_client.h:288-356 | with the server's answers on their way, perhaps only in part, a call gets its own answer or fails |
| Client.CallInTurn | galay-rpc/kernel/rpc_client.h:303-356 | any number of calls in turn until one fails, whatever the network does: each gets its own answer, and no more than the requests of the calls made is sent; if nothing fails, exactly as many are answered as answers arrive in whole |
| Client.AllAreWhole | galay-rpc/kernel/rpc_server.h:433-509 | when all answers arrive, all of them arrive in whole |
| Client.NoMismatch | galay-rpc/kernel/rpc_client.h:338-352 | so neither mismatch branch is ever taken |
| Client.ServerAnswers | galay-rpc/kernel/rpc_server.h:433-509 | the answers those calls read are what the server sends for the bytes those calls send |
| Client.StaleResponseMismatches | galay-rpc/kernel/rpc_client.h:338-344 | a response that a failed call left behind makes the next call end in a mismatch, so calling on after a failure is different |
| Pipeline.SwapRemoveContents | benchmark/b2_rpc.cpp:189-190 | swap-remove takes away exactly one occurrence of the entry |
| Pipeline.Client.Issue | benchmark/b2_rpc.cpp:139-139 | the next id, with 32-bit wrap-around; the table is not touched |
| Pipeline.Client.Remember | benchmark/b2_rpc.cpp:150-158 | the id joins the table exactly when its request was sent |
| Pipeline.Perform | benchmark/b2_rpc.cpp:134-190 | the table and counter of the client object follow the run model step by step |
| Pipeline.Client.Settle | benchmark/b2_rpc.cpp:175-190 | the first entry with the response's id is removed; not found exactly when there is none |
| Pipeline.CounterIsNumbering | benchmark/b2_rpc.cpp:133-139 | the wrapping counter runs through the ids that the n-th request is given in the run model |
| Pipeline.RespondIsFaithful | galay-rpc/kernel/rpc_server.h:454-457 | the unary server answers with the request's id and mode |
| Pipeline.EveryRunConserves | benchmark/b2_rpc.cpp:130-196 | in every interleaving the queues hold exactly the ids sent and not received, in order, the table holds those same ids, never more than the depth, and every response finds its entry |
| Pipeline.SendsAndAnswers | benchmark/b2_rpc.cpp:136-158 | after any run a request is sent exactly while fewer than the depth are outstanding, and joins the queue unchanged but for its id; the server's next answer is to the oldest request |
| Pipeline.EveryRunDrains | benchmark/b2_rpc.cpp:165-190 | after any run, once the server has answered what is queued and the client has read it, as many responses are received as requests were sent and nothing is outstanding |
| Pipeline.OutstandingIdsDistinct | benchmark/b2_rpc.cpp:133-139 | the outstanding ids are distinct if and only if at most 2^32 requests are outstanding |
| StreamProtocol.WindowIs | benchmark/b5_stream.cpp:155-155 | the window is the configured one, but at least one frame and at most the stream |
| StreamProtocol.Says | benchmark/b5_stream.cpp:133-210 | what each process puts on its channel in each state, with the wire's numbers, and that it puts nothing else there |
| StreamProtocol.ClientKeepsInv | benchmark/b5_stream.cpp:126-247 | every client action keeps the protocol invariant: handshake, data flow, farewell and quiet states, window and order of frames |
| StreamProtocol.ServerKeepsInv | galay-rpc/kernel/streamsvc.h:300-424 | so does every action of the connection loop and the echo handler |
| StreamProtocol.EveryRunIsOrderly | benchmark/b5_stream.cpp:126-247 | the invariant holds after every interleaving: no unexpected frame, at most a window outstanding, echoes in order, and both channels empty between streams |
| StreamProtocol.FramesInTransit | benchmark/b5_stream.cpp:155-190 | sent minus received is the frames in both channels plus the one the server holds, within the window, all DATA frames of this stream |
| StreamProtocol.ClientActionCounts | benchmark/b5_stream.cpp:126-247 | every client action brings the stream exactly one step closer to its end |
| StreamProtocol.ServerActionCounts | benchmark/b4_stream.cpp:37-71 | so does every server action |
| StreamProtocol.StreamCompletes | benchmark/b5_stream.cpp:126-247 | whatever the schedule, a stream is complete after exactly 4 actions per frame and 8 for opening and closing, and everything is quiet again |
| StreamProtocol.NeverStuck | benchmark/b5_stream.cpp:126-247 | no deadlock on unbounded channels: while the client is not stopped one of the two processes can act |
| StreamProtocol.StuckExactly | benchmark/b5_stream.cpp:155-170 | on channels of limited size the only deadlock is a client filling its window into a full channel while the server echoes into a full channel |
| StreamProtocol.RoomEnough | benchmark/b5_stream.cpp:155-190 | no run gets stuck when the window is at most twice the channel size plus one |
| StreamProtocol.LargerWindowDeadlocks | benchmark/b5_stream.cpp:155-170 | with any larger window some run does get stuck |
| StreamTrace.FirstFrameIsAnswered | galay-rpc/kernel/streamsvc.h:322-416 | every frame read at connection level is answered, next, by exactly one CANCEL with its id, or by one INIT_ACK with its id and then the start of its handler, the latter exactly for a STREAM_INIT with parseable body and registered route; a failed answer is the last event |
| StreamTrace.HandlerOfFirstFrame | galay-rpc/kernel/streamsvc.h:325-385 | the handler of a first frame, from the bytes and the registrations: that of a STREAM_INIT whose body starts with two names behind their lengths is the last one registered for sessions of that service and method |
| StreamTrace.NoHandlerWithoutNames | galay-rpc/kernel/streamsvc.h:350-372 | a frame whose body does not start with two names has no handler |
| StreamTrace.FirstFrameStartsItsRoute | galay-rpc/kernel/streamsvc.h:322-416 | so a STREAM_INIT for a registered route is answered with frame 0x11 and starts exactly that route's handler with its stream's id, and any other first frame gets frame 0x14 |
| StreamTrace.NothingAfterClosing | galay-rpc/kernel/streamsvc.h:305-411 | nothing happens after a failed read or send at connection level |
| StreamTrace.RunsNeverOverlap | galay-rpc/kernel/streamsvc.h:415-416 | between two handler starts the first handler returned |
| StreamTrace.TakesFramesInOrder | galay-rpc/kernel/streamsvc.h:300-424 | when reads do not fail and the peer sends whole frames that fit, loop and handlers take them in order, none twice and none skipped |
| StreamServer.TakeFrame | galay-rpc/kernel/rpc_stream.h:366-430 | a read through the ring is one of the possible events and leaves the connection in the state the machine says, interrupted reads included |
| StreamServer.ReadFrame | galay-rpc/kernel/streamsvc.h:307-319 | the log stays legal and in step with the bytes read |
| StreamServer.SendFrame | galay-rpc/kernel/streamsvc.h:331-345 | the log stays legal and in step with the bytes sent, also when only a part of the frame goes out |
| StreamServer.Admit | galay-rpc/kernel/streamsvc.h:325-385 | the checks on a first frame lead to the handler that its names have been registered with, as `StreamTrace.HandlerOfFirstFrame` states it, or to none |
| StreamServer.Open | galay-rpc/kernel/streamsvc.h:305-413 | one iteration of the loop, up to the start of a handler, is made of possible events |
| StreamServer.Perform | galay-rpc/kernel/streamsvc.h:415-416 | one step of an arbitrary handler, a read, a send or its return, is one possible event, and the handler sees how it went |
| StreamServer.RunHandler | galay-rpc/kernel/streamsvc.h:415-416 | an arbitrary handler takes its steps until it returns, or exactly as many as it is allowed |
| StreamServer.HandleConnection | galay-rpc/kernel/streamsvc.h:300-424 | for any handlers, any bytes and every read and write plan, the log of the connection is legal and accounts for every byte read and sent; it ends closed, or stopped after exactly the allowed iterations or handler steps, never between a frame and what it leads to, and closed when nothing stops it |
| EchoTrace.ReactIsServerStep | benchmark/b4_stream.cpp:37-71 | the byte-level server's reply to a frame is what the server process of the protocol does with it |
| EchoTrace.SaysTo | benchmark/b4_stream.cpp:37-71 | what the server says to each frame, in the wire's numbers, under which id, and where it goes from there |
| EchoTrace.RegisteredRouteIsAccepted | galay-rpc/kernel/streamsvc.h:184-196 | every STREAM_INIT a client sends for a registered route with names that fit is accepted, as the registrations decide |
| EchoTrace.OwedForFrames | galay-rpc/kernel/streamsvc.h:300-424 | for a stream of frames that fit, what the server owes is the encoded replies, frame by frame, in order |
| EchoTrace.OwedStep | galay-rpc/kernel/streamsvc.h:305-416 | how one read changes what is owed, including reads that fail inside a handler |
| EchoTrace.OversizedFrame | galay-rpc/kernel/rpc_stream.h:387-415 | a frame whose body exceeds the ring gets no reply: it closes the connection, or ends the handler and leaves its body to be read as the next frames |
| EchoTrace.TidyBalances | benchmark/b4_stream.cpp:37-71 | every event but a failure keeps sent plus owed the same |
| EchoTrace.NothingBeyondOwed | benchmark/b4_stream.cpp:37-71 | whatever event, failed sends included, what has been sent afterwards is a prefix of sent plus owed before |
| EchoTrace.PrefixIfSilent | galay-rpc/kernel/streamsvc.h:300-424 | what the server has sent is a prefix of what it owes if it is silent after the first failure, and all of it if none has happened and the connection is closed |
| EchoTrace.FailuresForGoodAreSilent | galay-rpc/kernel/streamsvc.h:300-424 | it is silent when refused writes never recover and reads never fail, or never recover and come from a plain stream |
| EchoTrace.LoopDamageIsSilent | galay-rpc/kernel/streamsvc.h:307-411 | it is silent under every plan when no read or write fails inside a handler |
| EchoTrace.PlainFrames | galay-rpc/kernel/rpc_stream.h:374-408 | whole frames make a plain stream if no payload of more than 16 bytes starts like a header |
| EchoResumption.NotAPrefix | galay-rpc/kernel/streamsvc.h:415-416 | whatever the route, ids and payloads, a write that fails in the middle of an echo and then recovers leads to bytes that are no prefix of what is owed |
| EchoResumption.ArrivedIsNoPrefix | galay-rpc/kernel/rpc_stream.h:374-408 | what is owed when a payload that starts like a frame is cut off behind it is no prefix of what is owed for all of it |
| StreamEcho.Serve | galay-rpc/kernel/streamsvc.h:300-424 | the loop keeps a legal log from any waiting state and stops only when closed or after exactly the allowed iterations |
| StreamEcho.HiccupCorruptsTheStream | galay-rpc/kernel/streamsvc.h:415-416 | the loop itself does it: on a plan that takes part of an echo, fails once and recovers, the bytes sent are no prefix of what is owed |
| StreamEcho.ServeDead | galay-rpc/kernel/streamsvc.h:300-424 | on a network that delivers nothing any more the server sends exactly what it owes for the bytes in the ring |
| StreamEcho.PlainnessIsNeeded | galay-rpc/kernel/rpc_stream.h:374-408 | reads that fail for good are not enough: when the network dies behind a frame nested in a payload, the loop answers the payload, and the bytes sent are no prefix of what is owed |
| StreamEcho.EchoFrame | benchmark/b4_stream.cpp:45-69 | an echoed payload, still borrowed from the ring, goes out as it was read, or the part of it that the write plan lets through, and the handler goes on exactly after a complete DATA echo |
| StreamEcho.EchoHandler | benchmark/b4_stream.cpp:37-71 | under every read and write plan the handler does what its script says and returns |
| StreamEcho.HandleConnection | galay-rpc/kernel/streamsvc.h:300-424 | under every read and write plan the log is legal and accounts for every byte; what is sent is a prefix of what is owed when nothing fails inside a handler, or when failures are for good (and reads cut off for good come from a plain stream), and all of it when nothing fails |
| Registry.ApplySyncs | galay-rpc/kernel/rpc_discovery.h:138-210 | every operation keeps each current watcher's snapshot plus events equal to `discoverService` |
| Registry.WatchersStaySynced | galay-rpc/kernel/rpc_discovery.h:138-210 | so it holds for every listed watcher after any sequence of operations |
| Registry.WatcherFollows | galay-rpc/kernel/rpc_discovery.h:138-210 | after any operations, a watcher that starts now has, after any further operations that do not unwatch its name, a snapshot and events that add up to `discoverService` |
| Registry.UnwatchedIsSilent | galay-rpc/kernel/rpc_discovery.h:208-210 | a watcher that is on no list is never told anything again |
| Registry.RegisterDoes | galay-rpc/kernel/rpc_discovery.h:138-150 | the endpoint is appended, each watcher of its service gets one ADDED with it, and nothing else changes |
| Registry.DeregisterDoes | galay-rpc/kernel/rpc_discovery.h:155-183 | the first endpoint with the instance id goes, the others keep their order, each watcher of the service gets one REMOVED with it, and nothing else changes |
| Registry.DeregisterFindsNone | galay-rpc/kernel/rpc_discovery.h:155-169 | without such an instance nothing changes |
| Registry.WatchDoes | galay-rpc/kernel/rpc_discovery.h:200-203 | one more watcher is listed behind the others of the name, starting from what `discoverService` returns, and nothing else changes |
| Registry.UnwatchDoes | galay-rpc/kernel/rpc_discovery.h:208-210 | the list of the name is empty, and nothing else changes |
| Registry.LocalServiceRegistry.Notify | galay-rpc/kernel/rpc_discovery.h:142-147 | the loop gives every watcher of the service the event exactly once and nobody else |
| Registry.LocalServiceRegistry.RegisterService | galay-rpc/kernel/rpc_discovery.h:138-150 | appends the endpoint, announces it, keeps watchers in step |
| Registry.LocalServiceRegistry.DeregisterService | galay-rpc/kernel/rpc_discovery.h:155-185 | removes and announces the first endpoint with the instance id; NOT_FOUND exactly when there is none |
| Registry.LocalServiceRegistry.WatchService | galay-rpc/kernel/rpc_discovery.h:200-203 | a new watcher is listed and starts from what `discoverService` returns now; no endpoint and no other watcher is touched |
| Registry.LocalServiceRegistry.UnwatchService | galay-rpc/kernel/rpc_discovery.h:208-210 | drops every watcher of the name |
| Registry.NextIsSerial | galay-rpc/kernel/rpc_discovery.h:265-385 | one statement of one of the five coroutines, at any of its exits, keeps the registry that of the local one in lock order plus the holder's partial work, and every acquisition matched by one release |
| Registry.NextIsAccounted | galay-rpc/kernel/rpc_discovery.h:265-385 | each completed change is in the lock order exactly once, whichever of the unlock sites it took |
| Registry.EveryInterleavingIsSerial | galay-rpc/kernel/rpc_discovery.h:265-385 | for all coroutines and all interleavings, lock timeouts included: at most one is inside, services and watchers are those of the local registry in lock order, the lock is released as often as acquired, and watchers are in step whenever it is free |
| EchoRuns.RunsOweTheirBytes | benchmark/b5_stream.cpp:126-247 | in every run of the two processes, the bytes of what the server process has sent are a prefix of what the byte-level server owes for what the client process has sent, and all of it when nothing is pending |
| EchoRuns.EveryRunKeeps | galay-rpc/kernel/streamsvc.h:300-424 | in every run, what the server process has sent and has yet to send are the replies to the frames it has taken, in order |
| StreamClient.Open | benchmark/b5_stream.cpp:133-153 | the stream is opened, or the network fails: never an unexpected acknowledgement |
| StreamClient.FillWindow | benchmark/b5_stream.cpp:158-171 | sends until window or stream is full, and exactly that |
| StreamClient.Flow | benchmark/b5_stream.cpp:155-190 | with the echoes on their way every frame comes back unchanged and in order, or the network fails |
| StreamClient.ReadTail | benchmark/b5_stream.cpp:211-228 | the closing loop completes at the first END and is refused at the first CANCEL, whatever frames come before, leaving exactly what follows; otherwise it fails |
| StreamClient.TailEndsAt | benchmark/b5_stream.cpp:211-228 | frame by frame: END completes, CANCEL does not, any other frame is passed over |
| StreamClient.Close | benchmark/b5_stream.cpp:203-228 | the stream is ended with nothing left unread, or the network fails |
| StreamClient.RunStream | benchmark/b5_stream.cpp:126-247 | one whole stream under every plan: no frame is unexpected, no more than the client's part is sent, all of it on completion, and it completes when nothing fails |
| StreamClient.ServerSaysWhatIsHeard | benchmark/b4_stream.cpp:37-71 | what the client is to hear is what the byte-level echo server owes for what the client says |
| StreamClient.SaidAndHeard | benchmark/b5_stream.cpp:133-215 | what the client says and is to hear, frame by frame in the wire's numbers, all under the stream's id |
| StreamClient.OpensItsRoute | benchmark/b5_stream.cpp:133-153 | the stream goes to the last handler registered for sessions of the method and service it names |
| StreamClient.WindowIs | benchmark/b5_stream.cpp:155-155 | the window of the byte-level client is that of the two-process protocol |
| RegistryResults.FieldsAfter | galay-rpc/kernel/rpc_discovery.h:265-385 | the shared error and list are always what was last written to them, with or without the lock |
| RegistryResults.RunsAlone | galay-rpc/kernel/rpc_discovery.h:265-330 | a change that finds the lock free can run to its end: the registry has changed as the local one does, and the error is NOT_FOUND exactly when there was no such instance |
| RegistryResults.LooksAlone | galay-rpc/kernel/rpc_discovery.h:335-353 | a lookup that finds the lock free leaves the registry alone and reports what it found |
| RegistryResults.GetsNoLock | galay-rpc/kernel/rpc_discovery.h:336-341 | a coroutine that gets no lock reports LOCK_TIMEOUT, a lookup also an empty list, and nothing else changes |
| RegistryResults.DiscoverCallerReads | galay-rpc/kernel/rpc_discovery.h:336-356 | a lookup finds the service in a serial registry, and its caller is certain to read that list if and only if no other coroutine can change it: a list with endpoints, if no other lookup waits for the lock or is about to clear it; an empty one, if no other lookup waits whose service has an endpoint or one waiting to be registered |
| RegistryResults.ErrorIsFinal | galay-rpc/kernel/rpc_discovery.h:265-385 | a caller is certain to read the error its coroutine wrote if and only if no other coroutine waits for the lock or still has an error to write |
| RegistryResults.ListChanges | galay-rpc/kernel/rpc_discovery.h:336-356 | whenever some lookup can change the list there is a run after which it is another one |
| RegistryResults.ErrorChanges | galay-rpc/kernel/rpc_discovery.h:265-385 | whenever some coroutine has an error to write there is a run after which the error is another one |
| RegistryResults.LookupIsOverwritten | galay-rpc/kernel/rpc_discovery.h:336-356 | for every endpoint there is a run in which a successful lookup's caller reads an empty list and a lock timeout |

## Left out

- galay-kernel (the ring buffer's own code, sockets, schedulers, timeouts, the asynchronous mutex) is not part of this model; only the contracts the headers rely on are.
- Message objects are values with an owned or borrowed payload, not objects updated through setters: the `isEnd` flag, which a reused stream message never resets, and stale fields of a message whose read failed are not captured.
- Gather lists are sequences that `ConsumeWritevIovecs` returns, not a vector edited in place.
- The interleavings of windowed client and stream server are a state machine over steps; a send takes effect as a whole frame, and no I/O failure occurs there. What failures do to the bytes is the subject of `StreamEcho`, `StreamClient` and `Client`.
- StreamClient.RunStream: what the server says is taken to be on its way from the start, in whole or in part; `StreamClient.ServerSaysWhatIsHeard` shows it is what the server says. The client's stop flag is modelled in `StreamProtocol` only.
- The reconnect paths of both benchmark clients, their latency statistics, sleeps and command lines.
- StreamEcho.HandleConnection: promises a prefix of what is owed only when failures are for good, or fall outside handlers, because otherwise it is false: `StreamEcho.HiccupCorruptsTheStream` and `StreamEcho.PlainnessIsNeeded` give the inputs. That the condition is also necessary plan by plan is not stated: later bytes may happen to continue the broken frame.
- StreamServer.RunHandler: a handler is a function of what it has read and whether its reads and sends succeeded; it sends owned data on the stream it was given, under that stream's id. A handler that echoes borrowed payloads is modelled by `StreamEcho.EchoHandler`.
- StreamEcho.EchoHandler: reads, replies and returns as the script does; that it is the only handler registered is an assumption of `StreamEcho.HandleConnection`.
- Client.CallInTurn: the server's answers are taken to be on their way from the start, in whole or in part, instead of being produced call by call; `Client.ServerAnswers` shows they are the answers to what is sent. The branch for a client that was never connected is not modelled.
- Server.Handle: handlers are functions of the request that set a code and a payload; a handler that changes the response's id or mode, or borrows memory other than the request's payload, is not modelled.
- `RpcHeaderReadState`, `RpcBodyReadState` and `sendRaw`: simpler versions of the readers and writers that are modelled.
- The client's behaviour after a timed-out call, which depends on how the kernel cancels reads; abandoning a read at a wait point is covered by `ReadMachine.ReceiveAll`.
- The growth of the route cache's strings (`assignCachedString`), which affects allocation only.
- Registry callbacks that call back into the registry.
- `ServiceDiscoveryClient` and its selectors, accept loops, builders, configuration, logging, error texts and the mapping from I/O errors to codes.
