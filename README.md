# DiscountsService in Dafny

This project models the sequential logic of DiscountsService, a TCP service that generates and redeems discount codes. It covers these parts:

- **Network packets.** The envelope (`NetworkPacket`: header plus nullable payload) and its `Size`. The four packet classes, their `Create` factories, their type ids and their `[Packet]` attributes.
- **Length-prefix decoding in `PacketReader`.**
  - The varint reader, with the C# `int` accumulator kept as a 32-bit pattern.
  - The framing loop of `EnumerateAsync` over a rented buffer.
  - The packet-type table built by the constructor, and `Read`.
- **`PacketManager`.** The registry from type id to packet and handler class, and `TryGetPacketInfo`.
- **`RingBuffer<T>`.** The bounded, drop-newest FIFO connections queue their outgoing packets in. It is a class with a `seq` field, plus a value-level model of any run of puts and takes.
- **`Connection`.** The idempotent `Close`, the close calls after the receive loop, `Send`, and the decisions of the send loop.
- **`ServerBase`.**
  - The table of connections and the new-connection listeners.
  - The lazily filled handler cache.
  - `CallListener`'s dispatch decisions.
- **The handlers.**
  - `GenerateDiscountsHandler`, and `DiscountCodeGeneratorService` with its partitioning, batches and random codes.
  - `UseDiscountHandler`'s redemption over the `DiscountCodes` table.
- **The table schema.** Code validity, key and unique index, as a predicate and an invariant.
- **The client's command loop.** Splitting a line, `TryParse` and the command switch.

Dafny's integers are unbounded. Where the width of a C# integer matters, the model writes it out:
- a 32-bit accumulator, masked shift counts and two's-complement reading in `Varint`;
- `ushort` and `byte` are newtypes.

These become parameters:
- Randomness: `Random.Next` draws, and GUID texts.
- The clock: `DateTime.UtcNow`.
- Socket outcomes: the result of each write, and how the receive loop ended.
- Reflection answers: type fields, attributes, handler interfaces, whether a handler has `ExecuteAsync`.
- protobuf-net: serializers and deserializers are uninterpreted functions.
- Console input: a finite sequence of lines.

Files and modules:
- `wrappers.dfy`: `Option` and `Result`.
- `ring_buffer.dfy`: `RingBuffers`.
- `packets.dfy`: `Packets`.
- `varint.dfy`: `Varint` (decoding arithmetic and a reference encoder).
- `packet_reader.dfy`: `PacketReader`.
- `packet_manager.dfy`: `PacketManager`.
- `connection.dfy`: `Connections`.
- `server_base.dfy`: `Servers`.
- `persistence.dfy`: `Persistence`.
- `use_discount.dfy`: `UseDiscount`.
- `generate_discounts.dfy`: `DiscountGeneration`.
- `client_program.dfy`: `ClientProgram`.

Error paths that matter for the receive side:
- `EnumerateAsync` throws when a length prefix is longer than the rented array, and when the body slice does not fit it (`PacketReader.cs:60-102` and `PacketReader.cs:135-138`). Either exception leaves the enumeration.
- Each envelope the loop yields goes straight to `Read` and `OnReceive` (`Connection.cs:79-86`).
- Those exceptions reach the catch in `Connection.ExecuteAsync`, which calls `Close(false)` (`Connection.cs:93-97`).

## Model

| member | source | states |
|---|---|---|
| RingBuffers.RingBuffer.constructor | src/DiscountsService.Infrastructure/Threading/RingBuffer.cs:13-21 | a positive capacity gives an empty buffer of that capacity that satisfies the invariant |
| RingBuffers.RingBuffer.New | src/DiscountsService.Infrastructure/Threading/RingBuffer.cs:13-21 | fails with the capacity error exactly when the capacity is 0; otherwise a fresh, empty buffer with that capacity |
| RingBuffers.RingBuffer.Enqueue | src/DiscountsService.Infrastructure/Threading/RingBuffer.cs:23-36 | at capacity: the item is handed to `BufferFull` and the contents are unchanged; below it: the item is appended and one permit is released; the invariant is kept |
| RingBuffers.RingBuffer.DequeueAsync | src/DiscountsService.Infrastructure/Threading/RingBuffer.cs:38-46 | with a permit: returns the head and removes it; a fired cancellation removes nothing |
| RingBuffers.Run | src/DiscountsService.Infrastructure/Threading/RingBuffer.cs:23-46 | sequential meaning of any interleaving of enqueues and dequeues |
| RingBuffers.RunBounded | src/DiscountsService.Infrastructure/Threading/RingBuffer.cs:11-31 | the stored length never exceeds the capacity, whatever the run |
| RingBuffers.RunFifo | src/DiscountsService.Infrastructure/Threading/RingBuffer.cs:34-45 | items taken, then items still stored, are the initial contents followed by the accepted items in order |
| RingBuffers.RunAccountsForOffers | src/DiscountsService.Infrastructure/Threading/RingBuffer.cs:26-35 | every offered item is accepted or dropped, exactly once |
| RingBuffers.OverflowAfterFill | src/DiscountsService.Infrastructure/Threading/RingBuffer.cs:26-31 | after filling an empty buffer, one more put is dropped alone and the contents stay |
| RingBuffers.FillFromEmpty | src/DiscountsService.Infrastructure/Threading/RingBuffer.cs:34-35 | up to capacity, puts into an empty buffer are stored in order and none is dropped |
| RingBuffers.Play | src/DiscountsService.Infrastructure/Threading/RingBuffer.cs:23-46 | a buffer object driven through a run ends exactly where `Run` says |
| Packets.DefaultPacket | src/DiscountsService.Network/Packets/Abstractions/NetworkPacket.cs:8-9 | a new envelope has header type `Invalid`, version 0, and an empty payload |
| Packets.Size | src/DiscountsService.Network/Packets/Abstractions/NetworkPacket.cs:11 | 4 plus the payload length for a payload, 0 for a null payload (the `??` precedence) |
| Packets.DefaultPacketSize | src/DiscountsService.Network/Packets/Abstractions/NetworkPacket.cs:8-11 | a default envelope has size 4 |
| Packets.CreateGenerateDiscountsRequest | src/DiscountsService.Network/Packets/GenerateDiscountsRequestPacket.cs:16-40 | header type 1, version 1, payload the serialized `{Count, Length}` of the arguments |
| Packets.CreateUseDiscountRequest | src/DiscountsService.Network/Packets/UseDiscountRequestPacket.cs:16-36 | header type 3, version 1, payload the serialized `{Code}`; the code is unvalidated |
| Packets.CreateUseDiscountResponse | src/DiscountsService.Network/Packets/UseDiscountResponsePacket.cs:15-35 | header type 4, version 1, payload the serialized `{Result}` |
| Packets.CreateGenerateDiscountResponse | src/DiscountsService.Network/Packets/GenerateDiscountResponsePacket.cs:14-34 | header type 2, version 1, payload the serialized `{Result}` |
| Packets.AttributeAgreesWithField | src/DiscountsService.Network/Packets/GenerateDiscountsRequestPacket.cs:7-11 | a class's `[Packet]` type equals its `PacketType` field; exactly the two response classes lack the attribute |
| Packets.HeaderIdentifiesClass | src/DiscountsService.Network/Packets/Abstractions/NetworkPacketType.cs:3-10 | two created envelopes share a header type exactly when their records belong to the same class; never `Invalid` |
| Packets.AttributeScan | src/DiscountsService.Hosting/Extensions/ServiceCollectionExtensions.cs:26-34 | the scan keeps exactly the classes that carry a `[Packet]` attribute |
| Packets.ScanSkipsResponses | src/DiscountsService.Network/Packets/UseDiscountResponsePacket.cs:7-8 | no scan yields a class of type 2 or 4 |
| PacketManager.ScannedTablesSkipResponses | src/DiscountsService.Hosting/Extensions/ServiceCollectionExtensions.cs:24-64 | the reader table and the registry the host builds from its scan hold only the request types 1 and 3 |
| Varint.FirstFinal | src/DiscountsService.Network/PacketReader.cs:151-159 | the index of the first byte with a clear high bit: every byte before it continues the prefix |
| Varint.ToInt32 | src/DiscountsService.Network/PacketReader.cs:128-154 | a 32-bit pattern read as a C# `int`: unchanged below 2^31, negative from 2^31 on |
| Varint.Acc32 | src/DiscountsService.Network/PacketReader.cs:128-149 | the 32-bit pattern of `packetSize` after or-ing in each byte's low seven bits shifted by seven per byte |
| Varint.Acc32Bound | src/DiscountsService.Network/PacketReader.cs:149 | the or-and-shift accumulator always stays a 32-bit pattern, however many bytes are read |
| Varint.LebSumBound | src/DiscountsService.Network/PacketReader.cs:147-149 | k seven-bit groups carry a value below 128^k |
| Varint.Acc32IsLebSum | src/DiscountsService.Network/PacketReader.cs:148-149 | after up to five bytes, the 32-bit accumulator is the arithmetic sum of the 7-bit groups modulo 2^32 |
| Varint.EncodeValue | src/DiscountsService.Network/PacketReader.cs:149 | the reference encoder's groups sum to the encoded number |
| Varint.EncodeFinal | src/DiscountsService.Network/PacketReader.cs:152-155 | only the encoder's last byte lacks the continuation bit, whatever follows |
| Varint.EncodeLength | src/DiscountsService.Network/PacketReader.cs:158-159 | a number below 128^k needs at most k prefix bytes |
| Varint.EncodeFitsFive | src/DiscountsService.Network/PacketReader.cs:158-159 | every non-negative `int` needs at most five prefix bytes |
| PacketReader.ReadVarintSpec | src/DiscountsService.Network/PacketReader.cs:126-161 | a decoded prefix occupies between 1 and the stream's and buffer's length in bytes |
| PacketReader.ReadVarintAsync | src/DiscountsService.Network/PacketReader.cs:126-161 | the loop's result equals `ReadVarintSpec`; the prefix bytes land in the buffer and nothing past them is read |
| PacketReader.ReadVarintValue | src/DiscountsService.Network/PacketReader.cs:148-155 | the offset is the index of the first final byte plus one; the size is the two's-complement reading of the accumulated groups, and the plain sum for short prefixes |
| PacketReader.PrefixAccumulator | src/DiscountsService.Network/PacketReader.cs:149 | up to five bytes: the accumulator is the sum modulo 2^32; up to four, or below 2^31: exactly the sum |
| PacketReader.ReadVarintFailures | src/DiscountsService.Network/PacketReader.cs:135-145 | end of stream exactly when the stream runs out before a final byte while the buffer has room; overflow exactly when the buffer fills with continuation bytes |
| PacketReader.ReadEncoded | src/DiscountsService.Network/PacketReader.cs:126-161 | round trip: an encoded size below 2^31 whose prefix fits is read back with its prefix length |
| PacketReader.EncodedAccumulator | src/DiscountsService.Network/PacketReader.cs:149 | the accumulator over an encoded size below 2^31 is that size |
| PacketReader.Frames | src/DiscountsService.Network/PacketReader.cs:54-105 | the framing loop as written: the turns of `FrameStep` repeated until one stops |
| PacketReader.FramesCorrected | src/DiscountsService.Network/PacketReader.cs:54-105 | the framing loop as intended, built from turns that read every size from 0 to the buffer size |
| PacketReader.FrameStep | src/DiscountsService.Network/PacketReader.cs:56-104 | one turn as written: a yielded body is the stream slice right after its prefix and fits the configured size |
| PacketReader.ReadExactly | src/DiscountsService.Network/PacketReader.cs:89 | the body bytes are copied into the buffer at the offset |
| PacketReader.NextFrame | src/DiscountsService.Network/PacketReader.cs:56-104 | one loop turn over the real buffer equals `FrameStep` |
| PacketReader.EnumerateAsync | src/DiscountsService.Network/PacketReader.cs:48-111 | a negative buffer size throws at the rent before anything is read; otherwise yields the deserialization of exactly each body `Frames` finds, in order, and stops for the reason `Frames` gives |
| PacketReader.FramesRoundTrip | src/DiscountsService.Network/PacketReader.cs:48-111 | the code as written returns the bodies of back-to-back frames when each whole frame fits the buffer |
| PacketReader.FullSizeFrameRejected | src/DiscountsService.Network/PacketReader.cs:80-89 | with the default 4096 buffer, a 4096-byte frame passes the size check and then throws at the slice |
| PacketReader.FramesCorrectedRoundTrip | src/DiscountsService.Network/PacketReader.cs:80-104 | intended loop: back-to-back frames with bodies up to the buffer size come back as exactly those bodies, then the stream ends |
| PacketReader.StopsYieldNothingAfter | src/DiscountsService.Network/PacketReader.cs:80-84 | a size above the configured size stops the loop with nothing read or yielded |
| PacketReader.FramesBounded | src/DiscountsService.Network/PacketReader.cs:80-104 | every yielded body fits the configured size, and no more bodies than stream bytes |
| PacketReader.ReaderTable | src/DiscountsService.Network/PacketReader.cs:32-45 | the constructor's loop over the classes: a missing type field throws, a repeated id throws, otherwise the id maps to the class |
| PacketReader.ReaderTableFailureStays | src/DiscountsService.Network/PacketReader.cs:32-45 | once the constructor has thrown, later classes change nothing |
| PacketReader.NewReader | src/DiscountsService.Network/PacketReader.cs:24-46 | the constructor's loop builds exactly `ReaderTable`, or throws its error |
| PacketReader.ReaderTableKeys | src/DiscountsService.Network/PacketReader.cs:32-45 | a built table holds exactly the declared ids |
| PacketReader.ReaderTableValues | src/DiscountsService.Network/PacketReader.cs:32-45 | each declared id maps to the class that declares it |
| PacketReader.ReaderTableContents | src/DiscountsService.Network/PacketReader.cs:32-45 | both directions of the table's contents together |
| PacketReader.ReaderTableSucceeds | src/DiscountsService.Network/PacketReader.cs:36-44 | the constructor succeeds exactly when every class has a type field and no id repeats |
| PacketReader.Read | src/DiscountsService.Network/PacketReader.cs:113-124 | null exactly for an unknown type id; otherwise that class's decoder on the payload |
| PacketReader.ReadOnBuiltReader | src/DiscountsService.Network/PacketReader.cs:113-124 | on a built reader, null exactly for ids no class declared; otherwise the declaring class's decoder |
| PacketManager.Registry | src/DiscountsService.Infrastructure/Networking/PacketManager.cs:30-59 | the constructor's loop: skips a class with no type field or no handler, throws on a repeated id, otherwise stores the class and its last matching handler |
| PacketManager.LastMatchWins | src/DiscountsService.Infrastructure/Networking/PacketManager.cs:42-48 | no handler exactly when none matches; otherwise a matching one with no match after it: the last wins |
| PacketManager.RegistryFailureStays | src/DiscountsService.Infrastructure/Networking/PacketManager.cs:30-59 | once the constructor has thrown, later classes change nothing |
| PacketManager.NewManager | src/DiscountsService.Infrastructure/Networking/PacketManager.cs:25-60 | the constructor's loop builds exactly `Registry`, or throws its error |
| PacketManager.RegistryKeys | src/DiscountsService.Infrastructure/Networking/PacketManager.cs:32-56 | a built registry holds exactly the ids of classes with a type field and a matching handler |
| PacketManager.RegistryValues | src/DiscountsService.Infrastructure/Networking/PacketManager.cs:42-56 | each such id stores its class and the last matching handler; every stored handler is non-null |
| PacketManager.RegistrySucceeds | src/DiscountsService.Infrastructure/Networking/PacketManager.cs:56 | the constructor throws exactly when two registrable classes share an id |
| PacketManager.TryGetPacketInfo | src/DiscountsService.Infrastructure/Networking/PacketManager.cs:62-65 | found exactly when the header type is registered, and then the stored info |
| PacketManager.LookupOnBuiltRegistry | src/DiscountsService.Infrastructure/Networking/PacketManager.cs:62-65 | on a built registry, found exactly for registrable classes' ids, with their class and last handler |
| Connections.SendLoop | src/DiscountsService.Infrastructure/Networking/Connection.cs:116-168 | the send loop's guards, then the queue drained by the loop |
| Connections.Drain | src/DiscountsService.Infrastructure/Networking/Connection.cs:124-160 | one dequeue per turn: null packets are skipped, a missing stream or a reset stops, other write errors are logged and the loop goes on |
| Connections.DrainConsumesPrefix | src/DiscountsService.Infrastructure/Networking/Connection.cs:124-167 | the send loop consumes a prefix of the queue and writes exactly its non-null packets; it stops early only on a reset or a missing stream |
| Connections.DrainWritesAll | src/DiscountsService.Infrastructure/Networking/Connection.cs:128-156 | with a stream and no reset, every non-null packet is written in order and the queue empties |
| Connections.Connection.constructor | src/DiscountsService.Infrastructure/Networking/Connection.cs:39-48 | a new connection is open, with no stream, no token source and an empty queue |
| Connections.Connection.New | src/DiscountsService.Infrastructure/Networking/Connection.cs:39-48 | fails exactly when `maxQueuedPackets` is 0; otherwise the queue has that capacity |
| Connections.Connection.Close | src/DiscountsService.Infrastructure/Networking/Connection.cs:102-109 | first call: cancel, close the client, mark closed, `OnClose(expected)` once; later calls change nothing |
| Connections.Connection.ExecuteAsync | src/DiscountsService.Infrastructure/Networking/Connection.cs:63-100 | no client: nothing changes; otherwise the stream is obtained and the connection ends closed, with `OnClose(false)` once, the client shut and the token source cancelled, unless it was already closed |
| Connections.Connection.Send | src/DiscountsService.Infrastructure/Networking/Connection.cs:111-114 | enqueues even after `Close`; a full queue drops the packet to `OnPacketQueueFull` |
| Connections.Connection.SendPacketsWhenAvailable | src/DiscountsService.Infrastructure/Networking/Connection.cs:116-168 | the loop's writes, the queue it leaves and why it stops are those of `SendLoop`; the token is cancelled only on a missing stream |
| Servers.DispatchSpec | src/DiscountsService.Infrastructure/Networking/ServerBase.cs:118-161 | `CallListener`'s decisions (drop, missing `ExecuteAsync`, handled, handler failure) and the cache after it |
| Servers.DispatchKeepsCache | src/DiscountsService.Infrastructure/Networking/ServerBase.cs:126-145 | a cached entry is never changed or removed; only the packet's own class is added, on first resolution |
| Servers.DispatchPreservesAgreement | src/DiscountsService.Infrastructure/Networking/ServerBase.cs:126-145 | every cached handler stays the registered handler of its packet class |
| Servers.DispatchOutcomes | src/DiscountsService.Infrastructure/Networking/ServerBase.cs:118-161 | dropped exactly for an unregistered packet or one without a handler; closing exactly when a resolved handler throws |
| Servers.DispatchAllKeepsCache | src/DiscountsService.Infrastructure/Networking/ServerBase.cs:126-145 | over any number of dispatches, cached entries persist and agree with the registry |
| Servers.FanOut | src/DiscountsService.Infrastructure/Networking/ServerBase.cs:163-166 | one call per listener, in registration order, on that connection |
| Servers.Server.constructor | src/DiscountsService.Infrastructure/Networking/ServerBase.cs:34-55 | an empty table, cache and listener list |
| Servers.Server.Accept | src/DiscountsService.Infrastructure/Networking/ServerBase.cs:95-96 | the connection is added under its id; an existing entry is left untouched |
| Servers.Server.RemoveConnection | src/DiscountsService.Infrastructure/Networking/ServerBase.cs:68-73 | only that id leaves the table |
| Servers.Server.RegisterNewConnectionListener | src/DiscountsService.Infrastructure/Networking/ServerBase.cs:113-116 | the listener is appended |
| Servers.Server.ForAllConnections | src/DiscountsService.Infrastructure/Networking/ServerBase.cs:105-111 | each connection in the table is visited exactly once |
| Servers.Server.CallConnectionListener | src/DiscountsService.Infrastructure/Networking/ServerBase.cs:163-166 | every listener is called in order; results are ignored and the connection is untouched |
| Servers.Server.CallListener | src/DiscountsService.Infrastructure/Networking/ServerBase.cs:118-161 | outcome and cache as `DispatchSpec`; on a handler failure only this connection is closed, with `expected = true` |
| Persistence.ValidCode | src/DiscountsService.Persistence/DiscountsDbContext.cs:67-75 | a code of 7 or 8 characters, all ASCII letters or digits |
| Persistence.TableInvariant | src/DiscountsService.Persistence/DiscountsDbContext.cs:62-75 | every row has a valid code, and no two rows share a key or a code |
| Persistence.Insert | src/DiscountsService.Persistence/DiscountsDbContext.cs:60-76 | an insert is rejected by any violated constraint, and otherwise appends the row |
| Persistence.NewRecord | src/DiscountsService.Persistence/DiscountsDbContext.cs:11-27 | a new row holds its id and code, unused, with a null `UsedAt` |
| Persistence.InsertKeepsInvariant | src/DiscountsService.Persistence/DiscountsDbContext.cs:60-76 | an insert succeeds exactly for a valid code with a new key and a new code, and keeps the table invariant |
| Persistence.FirstByCode | src/DiscountsService.Server/Handlers/UseDiscountHandler.cs:30 | a found index holds the code |
| Persistence.FirstByCodeFinds | src/DiscountsService.Server/Handlers/UseDiscountHandler.cs:30 | misses exactly when no row has the code; otherwise finds the first such row |
| Persistence.UniqueMatch | src/DiscountsService.Persistence/DiscountsDbContext.cs:72 | under the unique index, the row with the code is the one found |
| Persistence.Save | src/DiscountsService.Server/Handlers/UseDiscountHandler.cs:44-47 | only the saved row changes |
| Persistence.SaveKeepsInvariant | src/DiscountsService.Persistence/DiscountsDbContext.cs:62-75 | saving a row that keeps its key and code keeps the invariant |
| UseDiscount.IsNullOrWhiteSpace | src/DiscountsService.Server/Handlers/UseDiscountHandler.cs:24 | `string.IsNullOrWhiteSpace`: null, or only .NET white-space characters |
| UseDiscount.Redeem | src/DiscountsService.Server/Handlers/UseDiscountHandler.cs:22-49 | the handler's decisions: blank, unknown, already used, or redeemed with `Used` set and `UpdatedAt` stamped |
| UseDiscount.RedeemOutcomes | src/DiscountsService.Server/Handlers/UseDiscountHandler.cs:24-49 | blank, unknown, used and redeemed each happen exactly under their condition; the table changes only on redemption |
| UseDiscount.RedeemChangesOnlyMatch | src/DiscountsService.Server/Handlers/UseDiscountHandler.cs:44-47 | a redemption sets `Used` and `UpdatedAt` on the matched row only; `UsedAt` keeps its value |
| UseDiscount.RedeemKeepsInvariant | src/DiscountsService.Server/Handlers/UseDiscountHandler.cs:44-47 | redemption keeps the table invariant |
| UseDiscount.LookupAfterSave | src/DiscountsService.Server/Handlers/UseDiscountHandler.cs:30-47 | saving without changing codes moves no lookup |
| UseDiscount.RedeemTwice | src/DiscountsService.Server/Handlers/UseDiscountHandler.cs:38-49 | a code redeemed once is refused as used the next time |
| UseDiscount.ExecuteAsync | src/DiscountsService.Server/Handlers/UseDiscountHandler.cs:19-52 | the table becomes `Redeem`'s; exactly one response, `true` only on redemption, is sent or dropped by the full queue; the connection is otherwise untouched |
| DiscountGeneration.Chunks | src/DiscountsService.Server/Handlers/GenerateDiscountsHandler.cs:93-99 | full batches of `size`, then the remainder |
| DiscountGeneration.ChunksSum | src/DiscountsService.Server/Handlers/GenerateDiscountsHandler.cs:93-99 | chunk sizes sum to the total (0 for a total of 0) |
| DiscountGeneration.ChunksShape | src/DiscountsService.Server/Handlers/GenerateDiscountsHandler.cs:97 | every chunk lies in `1..size`; all but the last equal `size` |
| DiscountGeneration.ChunksCount | src/DiscountsService.Server/Handlers/GenerateDiscountsHandler.cs:95 | the chunk count is `ceil(total / size)`; none for a total of 0 |
| DiscountGeneration.Partition | src/DiscountsService.Server/Handlers/GenerateDiscountsHandler.cs:93-99 | the iterator's loop yields exactly `Chunks` |
| DiscountGeneration.DrawnCodeIsValid | src/DiscountsService.Server/Handlers/GenerateDiscountsHandler.cs:33 | a drawn code of length 7 or 8 satisfies the table's code constraints |
| DiscountGeneration.GenerateRandomCode | src/DiscountsService.Server/Handlers/GenerateDiscountsHandler.cs:80-91 | exactly `length` characters, each the alphabet character of its draw |
| DiscountGeneration.DiscountCodeGeneratorService.StoreDiscountCode | src/DiscountsService.Server/Handlers/GenerateDiscountsHandler.cs:58-62 | true exactly when the code was absent; the set then holds it |
| DiscountGeneration.DiscountCodeGeneratorService.GenerateDiscountCode | src/DiscountsService.Server/Handlers/GenerateDiscountsHandler.cs:64-78 | a present code gives false, an empty string and no change; otherwise it is added and returned |
| DiscountGeneration.DiscountCodeGeneratorService.GenerateBatch | src/DiscountsService.Server/Handlers/GenerateDiscountsHandler.cs:46-56 | once finished, exactly `count` new distinct drawn codes were added; otherwise the draws ran out first |
| DiscountGeneration.DiscountCodeGeneratorService.GenerateAsync | src/DiscountsService.Server/Handlers/GenerateDiscountsHandler.cs:36-44 | true with exactly `count` new drawn codes once all batches are done |
| DiscountGeneration.ExecuteGenerate | src/DiscountsService.Server/Handlers/GenerateDiscountsHandler.cs:8-23 | exactly `Count` GUID prefixes of `Length` characters, or the slice exception when `Length` exceeds 36; nothing stored or sent |
| DiscountGeneration.GuidPrefixIsValid | src/DiscountsService.Server/Handlers/GenerateDiscountsHandler.cs:18 | a 7 or 8 character GUID prefix would be a valid table code |
| ClientProgram.Split | src/DiscountsService.Client/Program.cs:33 | `Split(' ')` always yields at least one piece |
| ClientProgram.SplitJoin | src/DiscountsService.Client/Program.cs:33-39 | pieces hold no space, number one more than the spaces, and join back to the line |
| ClientProgram.JoinSplit | src/DiscountsService.Client/Program.cs:33 | pieces without spaces, joined and split again, come back unchanged |
| ClientProgram.TryParseU16 | src/DiscountsService.Client/Program.cs:58 | `ushort.TryParse`: the integer text, if it lies in 0..65535 |
| ClientProgram.TryParseByte | src/DiscountsService.Client/Program.cs:64 | `byte.TryParse`: the integer text, if it lies in 0..255 |
| ClientProgram.TryParseInt | src/DiscountsService.Client/Program.cs:41 | a parsed command is a 32-bit integer |
| ClientProgram.ParseDecimal | src/DiscountsService.Client/Program.cs:41-68 | the parsers read back the decimal text of any number in their range |
| ClientProgram.ParseLine | src/DiscountsService.Client/Program.cs:27-93 | one line's action: complain about a null line, an unparsable command, a wrong argument count or a bad count or length; send a request; exit; or do nothing |
| ClientProgram.ParseLineSends | src/DiscountsService.Client/Program.cs:48-93 | a packet is sent only for command 1 with 3 pieces or command 2 with 2, and it is the request those pieces describe |
| ClientProgram.GenerateLine | src/DiscountsService.Client/Program.cs:50-73 | `1 <count> <length>` sends that generate request for any `ushort` and `byte`, with no range check |
| ClientProgram.UseLine | src/DiscountsService.Client/Program.cs:75-87 | `2 <code>` sends that use request for any code without spaces |
| ClientProgram.RunSession | src/DiscountsService.Client/Program.cs:20-96 | the loop over the lines, stopping after the exit command |
| ClientProgram.SessionShape | src/DiscountsService.Client/Program.cs:20-96 | at most one packet per line read; the session stops right after the first exit command |
| ClientProgram.Run | src/DiscountsService.Client/Program.cs:20-96 | the loop's packets, complaints, lines read and disconnect are `RunSession`'s |

## Left out

- Sockets, streams, `TcpListener` accept callbacks, `Task.Run` loops and async waiting are left out. The model is sequential, and stream contents and write outcomes are parameters.
- `RingBuffers.RingBuffer.DequeueAsync`: waiting on the semaphore for an item that has not arrived yet is not modelled. The dequeue requires a permit unless cancellation has already fired.
- protobuf-net is a foreign library, so serializers and deserializers are uninterpreted function parameters.
  - No envelope round trip is claimed.
  - The header's duplicate field tag 1 (`NetworkPacketHeader.cs:8-9`) is not modelled.
  - The missing `[ProtoContract]` on `GenerateDiscountsRequestPacket` is not modelled.
- Reflection and dependency injection are given as explicit declarations. This covers assembly scanning, `ActivatorUtilities`, `MethodInfo.Invoke`, `GetContextPacket` and handler construction.
- `OnReceive`, `OnHandshakeFinished`, `GetStream` and the derived `DiscountsConnection` are abstract hooks or context. `Connections.Connection.ExecuteAsync` takes the way its receive loop ended as a parameter.
- `PacketReader.EnumerateAsync` leaves out three error paths:
  - `ObjectDisposedException` and `OperationCanceledException` during the prefix read are not modelled separately. They end the loop quietly, like the end of the stream does.
  - Cancellation during the body read is not modelled. The body read catches only `ObjectDisposedException` and `IOException` (`PacketReader.cs:89-100`), so there an `OperationCanceledException` would leave the enumeration as an exception.
  - A malformed envelope is not modelled: the deserializer is a total function, although `NetworkPacket.Deserialize` (`NetworkPacket.cs:13-15`) throws on one.
  - Either of the last two would propagate to the catch-all in `Connection.ExecuteAsync`, which closes the connection with `Close(false)`.
- `Connections.Connection.SendPacketsWhenAvailable`:
  - the write outcome of each queued position is a parameter;
  - the loop stops where the real one would wait for the next packet;
  - the 1 ms delay after a null packet is left out.
- EF Core, MySQL and migrations are left out.
  - The table is a sequence of rows with the schema's constraints as an invariant.
  - Which of several violated constraints the database reports is not modelled: any violation is one error.
- Randomness, time and logging are left out.
  - `Random.Next`, `Guid.NewGuid` and `DateTime.UtcNow` are parameters.
  - A GUID is any text of the `D` format; log lines are not modelled.
- `DiscountGeneration.DiscountCodeGeneratorService.GenerateAsync`: the batches run one after another, not in parallel. Random draws come from a finite supply, and a run that exhausts it reports that instead of drawing forever.
- `DiscountGeneration.ExecuteGenerate` is a module-level method. The handler has no state, and the list it builds is returned so its contents can be stated.
- `ClientProgram.TryParseInt`, `ClientProgram.TryParseU16`, `ClientProgram.TryParseByte` follow `NumberStyles.Integer` under the invariant culture: leading and trailing ASCII white space, an optional sign, then ASCII digits. Culture-specific signs and trailing null characters are not modelled.
- `ClientProgram.ParseLine` omits the source's test for zero pieces, because `Split` always yields at least one.
- `ClientProgram.Run`:
  - the menu and console messages are complaint values;
  - after the last line the real loop would read null forever and never disconnect;
  - the response events of `DiscountsClient` are left out.
- `Servers.Server.CallConnectionListener`: listeners are identified by number and their result is ignored, as in the source.
- The pieces of `ServerBase` that start the listener and build packet contexts are socket and reflection plumbing, and are left out.

## Findings

| source | as written | input that shows it | evidently intended | confidence | as-written member | corrected member |
|---|---|---|---|---|---|---|
| src/DiscountsService.Network/PacketReader.cs:80-89 | only `packetSize > _bufferSize` is checked before `buffer.AsMemory(offset, packetSize)`, so a frame whose prefix plus body exceeds the rented array, or a negative size from a five-byte prefix, throws `ArgumentOutOfRangeException` out of the enumeration | buffer size 4096 (the configured default) and a rented array of 4096 bytes; a frame of 4096 body bytes has the 2-byte prefix `0x80 0x20`, and the slice at offset 2 of length 4096 does not fit | every frame with a body of 0 to `bufferSize` bytes is read and yielded, and a negative size is refused like an oversized one | not executed | PacketReader.FullSizeFrameRejected | PacketReader.FramesCorrectedRoundTrip |
