# Verified model of the `proto_rpc` stack

The C++ library in `proto_rpc/lib` sends remote procedure calls over a byte stream. This project
models its three layers in Dafny and proves what each guarantees, and what two ends made of all three
guarantee together.

- **Buffer** (`Bytes.dfy`, `BufferSpec.dfy`, `Buffer.dfy`): a growable array with a reader and a
  writer index, 8 cheap prepend bytes, compaction by an overlapping copy, and growth. `BufferClass.Buffer` is the
  mutable class; `BufferSpec.Buf` is the value (array size, reader index, readable bytes) every
  method is proved to compute.
- **Codec** (`Adler32.dfy`, `Framing.dfy`, `DecoderSpec.dfy`, `PoolSpec.dfy`, `Codec.dfy`, `Pool.dfy`,
  `CodecRun.dfy`, `Wire.dfy`, `EndToEnd.dfy`, `Interleaving.dfy`): a frame is a big-endian int32 length, a body, and the big-endian
  Adler-32 of the body (RFC 1950, section 2.2); the length counts the body and the checksum.
  `Codec.RpcCodec` is the mutable class with the in-place decode loop and the list of output
  buffers. `Pool` is a step system over the same pool functions: any number of sends interleave,
  the socket reads an entry's memory at some moment between a write being issued and its
  completion handler running, writes are partial, and a write may fail. `CodecRun` drives the codec object
  through such runs. `Wire` says which
  schedules keep frames whole, and `EndToEnd` connects the messages sent to the callbacks made;
  `Interleaving` follows two sends that cut into each other.
- **Session** (`SessionSpec.dfy`, `Session.dfy`, `Stack.dfy`, `Protocol.dfy`, `Trace.dfy`, `IdReuse.dfy`,
  `MessageCodec.dfy`):
  call ids, the map of pending callbacks, dispatch with error replies, response matching.
  `SessionClass.RpcSession` is the mutable class; `Protocol` runs two sessions, either of which
  may call and serve, over channels that reorder; `Trace` is what is
  seen of a run, the calls made and the results computed; `IdReuse` follows a call that gets a waiting call's id;
  `Stack` puts a session on top of the codec.
- **Both ends** (`Bags.dfy`, `Loop.dfy`, `Settling.dfy`): two sessions, each sending through its own pool and wire and
  decoding the other's wire, with every partial write, read and callback a step. Over clean wires each run of such
  a system is a run of `Protocol` with the same calls and results, so what is proved of `Protocol` holds over the bytes.
  `Settling` says what has been done when everything has come through, and that it always can.

## How the model reads the code

- Protobuf is a pair of functions with `parse(ser(m)) == m`, passed as parameters;
  `MessageCodec` gives one pair of functions for `RpcMessage` that satisfies this (it is not protobuf's own format).
  `ParseFromArray` is total, because the code ignores its result.
- A null `RpcMessagePtr` is the event `ChecksumError`. The session handler reads its id, so the
  session function has no result for it; `Stack.SurvivesIffIntact` says exactly when that happens.
- A length below 4 is modelled with the unsigned wrap-around of `sizeof(int32_t) + len`: below -4
  the decoder waits for ever; from -4 to 3 the checksum would be taken over unrelated memory,
  and the parse is marked undefined there.
- `std::list` entries are named by their position; entries are never removed, so the pointer
  captured by a completion handler stays good.
- The calls to `rpcCallback_`, `send_rpc_msg`, service methods and `done` closures are recorded in
  sequence fields, and the bytes given to `async_write_some` are results of the methods.
- `HTONxx` followed by a copy of the integer's memory is taken as the big-endian byte string, as
  on a little-endian Linux host. The four widths of the integer methods share one width parameter.
- A lock-protected section and each handler are single steps; the unprotected part of
  `send_rpc_msg` is a step of its own, so another send can come between acquiring and filling.
- The comment above `readInt64` asks for 4 readable bytes, the assertion in `peekInt64` for 8
  (`proto_rpc/lib/common/Buffer.h` lines 225 and 259); the model follows the assertion.

## What the code does not keep, and exactly when it does

- With each byte traced to its send, frames stay whole on the wire if and only if no partial write goes out
  while another frame is midway (`Wire.WholeIffClean`). For the byte stream alone, and so for
  `EndToEnd.CleanDelivery`, this is a sufficient condition: `Interleaving.UncleanYetWhole` is a run whose only
  misplaced byte equals the one it changed places with. `Interleaving.InterleavedCorrupts` is a run of two empty
  messages that ends in a checksum error and then an undefined length.
- A message is delivered if and only if its size plus 4 is a positive int32
  (`Framing.FrameDelivered`).
- Two changed bytes escape the checksum if and only if the changes cancel and the positions are a
  multiple of 65521 apart (`Adler32.TwoByteChange`).
- `shrink` keeps the content if and only if it is shorter than 2^31 bytes (`BufferSpec.ShrinkExact`).
- A new call is safe if and only if its id is not in the map, that is, no call a multiple of 2^32
  earlier still waits (`Protocol.CallSafeIffFresh`, `Protocol.FreshMeaning`), and a run keeps every promise at every moment
  exactly when this holds of each of its calls (`Protocol.RunSafeIffFresh`). With at most 2^32 calls from each end all are
  safe (`Protocol.FewCallsSafe`). `IdReuse.WrongResultReached` is a run with one call more: the
  first call's result goes to the last call's `done` (`IdReuse.Misdelivered` says when this happens),
  and the first call's own `done` never runs (`IdReuse.OverwrittenNeverRuns`).
- A session gets through a stream of frames if and only if every checksum is right
  (`Stack.SurvivesIffIntact`).

## Model

| member | source | states |
|---|---|---|
| Bytes.SignedRoundTrip | proto_rpc/lib/common/Buffer.h:202-312 | an integer of any width survives network byte order exactly when it fits the width |
| Bytes.MostSignificantFirst | proto_rpc/lib/common/Buffer.h:202-312 | in network order of any width the first byte counts most, 256 times as much as the next |
| Bytes.Int32Exact | proto_rpc/lib/rpc_codec.cpp:20-53 | conversion to int32 keeps the value modulo 2^32 |
| Bytes.Ranges | proto_rpc/lib/common/Buffer.h:202-312 | the ranges of the 1, 2, 4 and 8 byte integers, in numbers |
| Bytes.IdRoundTrip | proto_rpc/lib/rpc_session.cpp:203-231 | an int32 call id survives the fixed64 field and back; a foreign field value survives exactly when it is a sign-extended int32; the truncation keeps the low 32 bits of every value |
| Adler32.ClosedForm | proto_rpc/lib/rpc_codec.cpp:48 | the per-byte recurrence is the sum and the position-weighted sum of the bytes, modulo 65521 |
| Adler32.AdlerValue | proto_rpc/lib/rpc_codec.cpp:48 | the checksum of every body in numbers: the weighted sum modulo 65521 in the upper half, the plain sum in the lower |
| Adler32.ReplaceByte | proto_rpc/lib/rpc_codec.cpp:48 | byte i counts once in the plain sum, and in the weighted one as many times as there are bytes from it to the end |
| Adler32.AdlerDiffers | proto_rpc/lib/rpc_codec.cpp:46-53 | two bodies of equal length share a checksum exactly when both sums agree modulo 65521 |
| Adler32.TwoByteChange | proto_rpc/lib/rpc_codec.cpp:46-53 | exactly which changes of two bytes, at any distance, leave the checksum unchanged |
| Adler32.OneByteChange | proto_rpc/lib/rpc_codec.cpp:46-53 | one changed byte always changes the checksum |
| BufferClass.Buffer.DoAll | proto_rpc/lib/common/Buffer.h:116-197 | every run of operations on the array ends in the state the values say, and what is readable is what the same run does to a plain sequence |
| BufferSpec.RefinesSequence | proto_rpc/lib/common/Buffer.h:116-197 | over every run of operations, whether they grow, compact or reset, the readable bytes are those of a plain sequence |
| BufferSpec.MemoryBound | proto_rpc/lib/common/Buffer.h:347-364 | with appends of at most n bytes made at most R readable, the array never exceeds max(initial, R + 2n + 7) |
| BufferSpec.CompactionGuard | proto_rpc/lib/common/Buffer.h:347-364 | compaction happens exactly when it makes enough room, and then takes the reader index from above 8 to 8; growth ends exactly at the room asked for |
| BufferSpec.DrainedLayout | proto_rpc/lib/common/Buffer.h:47-58 | a new buffer of the default size has 1032 bytes and reader index 8; draining any buffer puts the index back to 8 |
| BufferSpec.DrainedPrepends | proto_rpc/lib/common/Buffer.h:116-143 | any integer of up to 8 bytes can be put in front of a drained buffer, and is read back |
| BufferSpec.ShrinkExact | proto_rpc/lib/common/Buffer.h:155-158 | `shrink` keeps the content exactly below 2^31 bytes, with reader index 8, the reserve writable and size 8 + max(1024, readable + reserve) |
| BufferSpec.PrependThenRead | proto_rpc/lib/common/Buffer.h:292-320 | a prepended integer is read back and every other byte is left as it was |
| BufferSpec.AppendThenRead | proto_rpc/lib/common/Buffer.h:202-252 | an appended integer is read back after everything before it |
| BufferClass.Buffer.Retrieve | proto_rpc/lib/common/Buffer.h:116-123 | drops from the front; retrieving everything resets both indices of the object to 8 |
| BufferClass.Buffer.RetrieveAsString | proto_rpc/lib/common/Buffer.h:148-153 | returned and remaining bytes together are the old content |
| BufferClass.Buffer.MakeSpace | proto_rpc/lib/common/Buffer.h:347-364 | growth or compaction, content kept, as the value function says |
| BufferClass.Buffer.MoveToFront | proto_rpc/lib/common/Buffer.h:357-359 | the overlapping forward copy moves every readable byte |
| BufferClass.Buffer.EnsureWritableBytes | proto_rpc/lib/common/Buffer.h:176-181 | at least the requested room afterwards, content kept |
| BufferClass.Buffer.Append | proto_rpc/lib/common/Buffer.h:164-169 | bytes added at the end in the array, with the exact new size and reader index |
| BufferClass.Buffer.Prepend | proto_rpc/lib/common/Buffer.h:314-320 | bytes added at the front in the array |
| BufferClass.Buffer.ReadInt | proto_rpc/lib/common/Buffer.h:226-252 | the value read and the remaining bytes reproduce the old content |
| BufferClass.Buffer.Shrink | proto_rpc/lib/common/Buffer.h:322-330 | the copy and swap, or an exception that leaves the buffer untouched |
| Framing.LookExact | proto_rpc/lib/rpc_codec.cpp:18-42 | for every byte string, from its first four bytes: wait, undefined, or take so many bytes |
| Framing.JudgeExact | proto_rpc/lib/rpc_codec.cpp:25-53 | a frame is a message exactly when the Adler-32 of the body, by its sums, follows it |
| Framing.FrameExact | proto_rpc/lib/rpc_codec.cpp:83-90 | the frame is the one byte string with the length, the body and the checksum's value in its places |
| Framing.FlattenConcat | proto_rpc/lib/rpc_session.cpp:66-74 | the stream is the reads one after the other |
| Framing.ChunkIndependence | proto_rpc/lib/rpc_codec.cpp:15-44 | however the stream is cut into reads, callbacks and leftover are those of one parse of the whole stream |
| Framing.TwoCutsAgree | proto_rpc/lib/rpc_codec.cpp:15-44 | any two ways of cutting a stream give the same callbacks and leftover |
| Framing.ParseComplete | proto_rpc/lib/rpc_codec.cpp:18-43 | no complete frame is ever held back, and each callback used up at least 8 bytes |
| Framing.BadLengths | proto_rpc/lib/rpc_codec.cpp:20-21 | lengths from -4 to 3 are undefined, smaller ones never complete |
| Framing.StalledForEver | proto_rpc/lib/rpc_codec.cpp:20-42 | behind a length below -4 nothing more is ever reported |
| Framing.ErrorIsolation | proto_rpc/lib/rpc_codec.cpp:18-43 | changing bodies and checksums behind intact headers changes only those frames' outcomes |
| Framing.OneFrameDamaged | proto_rpc/lib/rpc_codec.cpp:18-43 | one damaged frame among intact ones: all others are delivered as sent, at their places |
| Framing.OneByteDamage | proto_rpc/lib/rpc_codec.cpp:25-36 | a frame hit in any one body byte is always reported |
| Framing.TwoByteDamage | proto_rpc/lib/rpc_codec.cpp:25-36 | a frame hit in two body bytes is reported, except in exactly the case Adler-32 cannot see |
| Framing.ChecksumDamage | proto_rpc/lib/rpc_codec.cpp:46-53 | any change of the checksum bytes alone is reported |
| Framing.RoundTrip | proto_rpc/lib/rpc_codec.cpp:83-90 | every sequence of frames back to back is decoded to exactly its messages |
| Framing.PartialFrameWaits | proto_rpc/lib/rpc_codec.cpp:18-42 | a part of a frame is kept until the rest arrives |
| Framing.FrameDelivered | proto_rpc/lib/rpc_codec.cpp:57-90 | for every size `ByteSize()` can return, exactly when the frame is delivered |
| DecoderSpec.InputBufferBound | proto_rpc/lib/rpc_session.cpp:66-74 | with frame lengths up to M and reads of 100 bytes, the input buffer stays within max(1032, M + 210) |
| PoolSpec.FillFresh | proto_rpc/lib/rpc_codec.cpp:83-90 | a reset entry has reader index 8, so the length finds 8 prepend bytes; the result is exactly one frame, at index 4 |
| Codec.RpcCodec.OnRead | proto_rpc/lib/rpc_codec.cpp:15-44 | the in-place loop calls back as the parse of old content plus chunk says, and keeps its leftover |
| Codec.RpcCodec.DecodeFrames | proto_rpc/lib/rpc_codec.cpp:18-43 | the loop terminates with every complete frame consumed |
| Codec.RpcCodec.ValidateChecksum | proto_rpc/lib/rpc_codec.cpp:46-53 | true exactly when the four trailing bytes are the Adler-32 of the body, by its sums |
| Codec.RpcCodec.AcquireBuffer | proto_rpc/lib/rpc_codec.cpp:61-81 | the first free entry, or a new one at the end; it comes reset and marked taken |
| Codec.RpcCodec.FillBuffer | proto_rpc/lib/rpc_codec.cpp:83-93 | frames the message in its own entry and touches no other buffer's memory |
| Codec.RpcCodec.SendRpcMsg | proto_rpc/lib/rpc_codec.cpp:55-94 | whatever entry it gets, the socket is given length, body and Adler-32 in their places, from index 4 of that entry |
| Codec.RpcCodec.OnWrite | proto_rpc/lib/rpc_codec.cpp:96-118 | writes the rest again, or frees the entry when nothing is left, or leaves it taken after an error |
| Pool.PoolOwnership | proto_rpc/lib/rpc_codec.cpp:55-118 | over every interleaving: no assertion fails, free entries are reset, sends own distinct entries, outstanding writes keep their bytes |
| Pool.WireConservation | proto_rpc/lib/rpc_codec.cpp:83-118 | over every interleaving: wire and entry together hold each frame once; an entry is released exactly when its frame is out and completed |
| Pool.HandedStable | proto_rpc/lib/rpc_codec.cpp:92-93 | until its completion runs, no other step touches the memory of an outstanding write |
| CodecRun.Run | proto_rpc/lib/rpc_codec.cpp:55-118 | driven through any run, the codec object has exactly the list, the bytes handed over and the bytes taken that `Pool` has, so ownership and conservation hold of its arrays |
| Pool.InvFill | proto_rpc/lib/rpc_codec.cpp:83-90 | the step that frames a message keeps the pool invariant, and its prepend of the length finds all 8 bytes |
| Pool.HighWaterMark | proto_rpc/lib/rpc_codec.cpp:61-81 | the pool is exactly as long as the peak of simultaneous sends, failed ones included, and at least 1 |
| Wire.WholeIffClean | proto_rpc/lib/rpc_codec.cpp:92-118 | with each byte traced to its send, the wire is whole frames, at most the last incomplete, exactly when no transfer happened while another frame was midway |
| EndToEnd.CleanDelivery | proto_rpc/lib/rpc_codec.cpp:15-118 | at any moment of a clean run, and for every cutting, the callbacks are the messages of exactly the frames that are out, each once |
| EndToEnd.Delivery | proto_rpc/lib/rpc_codec.cpp:15-118 | one send at a time: the callbacks are exactly the messages sent, in order, none null, nothing left over, one pool entry |
| Interleaving.EmptyFrame | proto_rpc/lib/rpc_codec.cpp:83-90 | the exact bytes of the smallest frame |
| Interleaving.InterleavedCorrupts | proto_rpc/lib/rpc_codec.cpp:92-118 | a possible run of two sends whose interleaved writes the receiver cannot decode |
| Interleaving.UncleanYetWhole | proto_rpc/lib/rpc_codec.cpp:92-118 | a possible run that is not clean and still puts the bytes of two whole frames on the wire |
| SessionClass.RpcSession.CallMethod | proto_rpc/lib/rpc_session.cpp:298-317 | takes the next id with wrap-around, stores that entry and no other, sends the request, field by field |
| SessionClass.RpcSession.OnRpcCallback | proto_rpc/lib/rpc_session.cpp:174-271 | for every message in numbers and fields: a request is served or refused with the right code and changes nothing else, a response touches its own entry only, anything else does nothing |
| SessionClass.RpcSession.OnRequest | proto_rpc/lib/rpc_session.cpp:181-228 | each error code exactly when the table is missing, or lacks the service, or the method, or the bytes do not parse; otherwise the service call |
| SessionClass.RpcSession.OnResponse | proto_rpc/lib/rpc_session.cpp:229-260 | takes out its own entry and leaves every other, runs that entry's `done` under the three guards; with no entry nothing changes |
| SessionClass.RpcSession.DoneCallback | proto_rpc/lib/rpc_session.cpp:273-291 | the reply field by field: the result and NO_ERROR, or INVALID_REQUEST for an empty one |
| SessionSpec.DispatchExact | proto_rpc/lib/rpc_session.cpp:181-228 | for every table, parser and request exactly one code fits, in the terms of table and parser |
| SessionSpec.MessageFields | proto_rpc/lib/rpc_session.cpp:262-317 | every field of the three messages a session sends |
| SessionSpec.RequestHandled | proto_rpc/lib/rpc_session.cpp:181-228 | a request changes nothing in the session and leads to one service call or one refusal with its id and code |
| SessionSpec.ResponseHandled | proto_rpc/lib/rpc_session.cpp:229-260 | for every session and response: only its own entry goes; an unknown id changes and runs nothing |
| SessionSpec.ErrorIgnored | proto_rpc/lib/rpc_session.cpp:174-271 | a message of the third type changes, sends, starts and runs nothing |
| SessionSpec.CallHandled | proto_rpc/lib/rpc_session.cpp:298-317 | a call adds one entry and one request and leaves every other entry |
| Protocol.CallSafety | proto_rpc/lib/rpc_session.cpp:174-317 | over every run: a waiting call is in exactly one place, as its own request, as a service call the tables accept, or as the answer with its result or fitting code, field by field, and has its own map entry; `done` runs at most once, with that call's result, exactly when due |
| Protocol.InvStep | proto_rpc/lib/rpc_session.cpp:174-317 | every step of either end keeps the protocol invariant |
| Protocol.FreshMeaning | proto_rpc/lib/rpc_session.cpp:304 | an id is in use exactly when a call a multiple of 2^32 earlier still waits |
| Protocol.CallSafeIffFresh | proto_rpc/lib/rpc_session.cpp:304-314 | a new call keeps the guarantees exactly when its id is fresh; otherwise an older call loses its entry |
| Protocol.SafeIffFresh | proto_rpc/lib/rpc_session.cpp:304-314 | after a new call every promise to every call still holds exactly when its id was fresh |
| Protocol.RunSafeIffFresh | proto_rpc/lib/rpc_session.cpp:174-317 | over a whole run every promise holds at every moment exactly when no call takes a waiting call's id |
| Protocol.FewCallsFresh | proto_rpc/lib/rpc_session.cpp:304 | a run with at most 2^32 calls from each end never meets an id in use |
| Protocol.FewCallsSafe | proto_rpc/lib/rpc_session.cpp:174-317 | so on such a connection every promise to every call is kept, with no other condition |
| IdReuse.IdsRunOut | proto_rpc/lib/rpc_session.cpp:304-314 | 2^32 calls from a new connection with nothing delivered are all safe, and the next one is not |
| IdReuse.Misdelivered | proto_rpc/lib/rpc_session.cpp:229-260 | after the id is used twice, the answer to the older call runs the newer call's `done` with the older call's result |
| IdReuse.AnswerLost | proto_rpc/lib/rpc_session.cpp:229-260 | the newer call's own answer then finds no entry and changes nothing |
| IdReuse.OverwrittenNeverRuns | proto_rpc/lib/rpc_session.cpp:304-314 | whatever happens afterwards, the older call's `done` never runs |
| IdReuse.WrongResultReached | proto_rpc/lib/rpc_session.cpp:174-317 | a full run from a new connection in which the one `done` that runs gets another call's result |
| Protocol.ReactedOk | proto_rpc/lib/rpc_session.cpp:229-260 | the reply to a waiting call finds its entry, sends nothing, and runs `done` exactly when due |
| Protocol.DeliveredRequest | proto_rpc/lib/rpc_session.cpp:181-270 | a request turns into exactly one service call or one error reply to its caller |
| Protocol.StepDecreases | proto_rpc/lib/rpc_session.cpp:174-291 | without new calls every step lowers the work left; there are no echo loops |
| Protocol.DrainBound | proto_rpc/lib/rpc_session.cpp:174-291 | without new calls a run is no longer than the work it starts with |
| Protocol.Drained | proto_rpc/lib/rpc_session.cpp:174-317 | work never gets stuck, and when none is left every call is answered and both maps are empty |
| Stack.OnMessagesMore | proto_rpc/lib/rpc_session.cpp:174-271 | each message meets the session the ones before it left, and what is sent, started and run adds up in order |
| Stack.NullIffChecksumError | proto_rpc/lib/rpc_session.cpp:174-180 | the handler reads a null message exactly when a checksum error was reported |
| Stack.SurvivesIffIntact | proto_rpc/lib/rpc_session.cpp:174-271 | a session gets through frames with intact headers exactly when every checksum is right |
| Stack.TransparentTransport | proto_rpc/lib/rpc_session.cpp:107-151 | over every clean run and every cutting, the session behaves as if handed the messages directly, and never meets null |
| Stack.SerialTransport | proto_rpc/lib/rpc_session.cpp:107-151 | one send at a time: the receiving session does exactly what the messages, in the order sent, make it do |
| Stack.ConcreteTransport | proto_rpc/lib/rpc_session.cpp:107-151 | the same for one actual serialization, with no assumption left about parsing |
| Loop.ReadPrefix | proto_rpc/lib/rpc_codec.cpp:15-44 | at any moment the frames taken out of a clean wire are among the messages sent, each once, and all of them when all is out and read |
| Loop.SoundStep | proto_rpc/lib/rpc_session.cpp:107-151 | every step of either end keeps both wires whole and both decoders on the bytes they read; neither crashes |
| Trace.RunServed | proto_rpc/lib/rpc_session.cpp:181-215 | over every run, what services are asked and what they compute is for a service and method in the tables and a request that parses |
| Trace.RunRanOwn | proto_rpc/lib/rpc_session.cpp:229-291 | each `done` that runs is of a call made with both pointers, once, with a non-empty result the other end's service computed for that call's own request |
| Loop.StepSim | proto_rpc/lib/rpc_session.cpp:107-317 | a step over bytes is one step of the two sessions with messages in flight, or none, and shows the same call or the same computed result |
| Loop.BytesKeepPromises | proto_rpc/lib/rpc_session.cpp:107-317 | over every clean run of two full stacks, however writes are split and reads cut: nothing crashes, services are asked only for what they offer, each `done` runs once with the result computed in this run for its own call, and the run is one of `Protocol` with the same calls and results, in which every promise is kept |
| Loop.FewCallsKeepPromises | proto_rpc/lib/rpc_session.cpp:107-317 | the same with a condition on ids that can be counted: at most 2^32 calls from each end |
| Settling.BytesAnswerAll | proto_rpc/lib/rpc_session.cpp:107-317 | once all bytes are out, read and handled, both maps are empty and each call is over: its `done` ran with the result computed for it, or not at all when the tables refuse it, the result is empty or a pointer is missing |
| Settling.Progress | proto_rpc/lib/rpc_session.cpp:107-317 | unless everything has come through or a write has failed, some step other than a call is possible and clean |
| Settling.Falls | proto_rpc/lib/rpc_session.cpp:107-317 | every step but a call lowers the work in flight, or the bytes to bring out, or the bytes to read |
| Settling.AlwaysSettles | proto_rpc/lib/rpc_session.cpp:107-317 | from wherever a run without failed writes has come, further steps without new calls bring everything through |
| Settling.NeverEndless | proto_rpc/lib/rpc_session.cpp:107-317 | no endless schedule of steps that each move something on (no transfer or read of nothing) can be followed without new calls |
| Settling.ConcreteSmall | proto_rpc/lib/rpc.proto:24-34 | the small replies `AlwaysSettles` asks for are those of an actual serialization |
| Loop.ConcreteLawful | proto_rpc/lib/rpc.proto:24-34 | the law these results assume of protobuf is met by an actual serialization |
| MessageCodec.ParseSerialize | proto_rpc/lib/rpc.proto:24-34 | a serialization of the message fields that its parser inverts |

## Left out

- Codec.RpcCodec.OnRead: excludes streams in which the decoder meets a length from -4 to 3, where the code reads outside the buffer.
- Protocol.CallSafety: assumes that each service runs its `done` closure at most once and that messages in flight are not damaged; a checksum error ends those guarantees, and after a failed write a call may wait for ever.
- Loop.BytesKeepPromises: what a handler does and the acquiring of the buffers for what it sends are one step; the framing and every write that follow are steps of their own.
- SessionClass.RpcSession.SetServices: `Protocol` and `Loop` have no step for it; the tables of both ends stay as they are from the start of a run.
- Settling.AlwaysSettles: assumes that replies without a result fit their length field, as they do with any serialization of bounded overhead.
- EndToEnd.Delivery: bodies are limited to the sizes whose frame length is a positive int32; `Framing.FrameDelivered` says what happens to the others.
- Overflow of `size_t` in buffer sizes: sizes are unbounded, as no vector reaches 2^64 bytes. The capacity of the vector, as opposed to its size, is not modelled.
- Data races and weak memory, such as the release of an entry outside the lock: each handler and each locked section is one step.
- Protobuf's wire format and zlib's blocked Adler-32: only the parse/serialize law and the per-byte recurrence are used.
- How many bytes a failing write took before it failed: taken as none.
- Sockets, acceptors, strands, timers, TLS, connection set-up and session lists: foreign calls and bookkeeping without hard properties.
- `findCRLF`, `findEOL`, `retrieveUntil`: not used by the codec, and `kCRLF` is not defined in the repository.
- `asio_practice_1`, `asio_rpc_practice` and `beast_practice-1`: simpler framing over one shared output buffer, and library-driven file serving.
