# MNet-2 wire codec and server routing, modelled in Dafny

This project models two parts of MNet-2, a reliable-UDP networking library for Java.

- **The wire codec of `ru.maklas.mrudp2.PacketType`.**
  - Big-endian Java integers are written into and read out of byte arrays (`putShort`/`extractShort`, `putInt`/`extractInt`, `putLong`/`extractLong`).
  - `buildSafeBatch` packs queued payloads into one datagram: a 1-byte settings field, a 4-byte sequence number, a 1-byte count, then a 2-byte length and the bytes of each payload. It packs greedily, stays within a buffer budget, and returns the index of the first payload left over.
  - `breakBatchDown` splits such a datagram back into its payloads.
- **The routing and admission logic of `ru.maklas.mnet2.ServerSocket`.**
  - The receive loop dispatches each datagram on its first byte: discovery, too short, known peer, or connection request.
  - The admission drain `processAuth` deduplicates queued connection requests, builds a `Connection` for each new one, and hands that connection to the authenticator.
  - The watchdog sweep `updateDCAndSockets` times sockets out, or asks them to resend and ping.
  - `update`, `getSockets` and `close` are modelled too.

Java's integer semantics are written out in module `JavaInts`:
- `byte` is the subset type `int8`.
- The `(byte)` cast is `ToByte`, which wraps modulo 256.
- `& 0xFF` is `Unsigned8`.
- `>>>` is `UShr32` or `UShr64`.
- `long` overflow is `Wrap64`.

Every writer is a method on `array<int8>`. Its contract ties the new array to the old one through `Overwrite`, and a pure encoding function (`ShortBytes`, `IntBytes`, `LongBytes`, `BatchBytes`) says what is written. The readers are functions or loop methods, and each is proved against its writer.

The server is a class with these fields:
- `sockets`: the socket map's list of sockets, in iteration order;
- `requests`: the request queue, head first;
- `buffer`: the receive buffer, an array;
- `calls`: a trace of the calls the server makes into collaborators that are not part of this model (`SocketImpl`, `Connection`, the authenticator, the discovery handler, the UDP socket).

Each received datagram and each `update` call is one atomic step.

The following are parameters of the model:
- the time `now`;
- the serializer's result (`Deserializer`, or `None` when it throws);
- the authenticator's decision (`Authenticator`);
- the values of the `mnet2.PacketType` tags `discovery` and `connectionRequest`.

Points of the code's behaviour that the model keeps as written:
- **Discovery replies.** The reply only has its address set to the sender's (`dpacket.setAddress`). Its port is whatever the discovery handler gave it.
- **Unknown tags.** A datagram from a known peer is forwarded whatever its tag. `run` checks no tag other than `discovery` and `connectionRequest`.
- **Timed-out sockets.** The sweep only queues a `TIMED_OUT` disconnection packet on the socket. Removal from the map happens inside `SocketImpl`, whose code is not part of this model.
- **Duplicate requests.** The comment at `ServerSocket.java:112` says a request from a peer that already has a socket is to be discarded. As written, the drain never polls past such a request and spins for as long as that peer stays mapped (see "## Findings"). `Update` uses the corrected drain.

## Model

All source paths are relative to the repository root.

| member | source | states |
|---|---|---|
| JavaInts.ToByte | src/main/java/ru/maklas/mrudp2/PacketType.java:26-27 | `(byte) x` is congruent to `x` modulo 256 and is `x` itself when `x` already fits a byte |
| JavaInts.Unsigned8 | src/main/java/ru/maklas/mrudp2/PacketType.java:33 | `b & 0xFF` lies in [0, 256) and is `b` or `b + 256` |
| JavaInts.Wrap64 | src/main/java/ru/maklas/mrudp2/PacketType.java:65 | `long` arithmetic: the result is a 64-bit value congruent to the exact one modulo 2^64 |
| JavaInts.UShr32Byte | src/main/java/ru/maklas/mrudp2/PacketType.java:37-39 | for a 32-bit `v`, `(byte)(v >>> 8k)` is the byte of `v / 256^k`, so the unsigned shift's fill bits never reach the byte kept |
| JavaInts.UShr64Byte | src/main/java/ru/maklas/mrudp2/PacketType.java:52-58 | the same for a 64-bit `long` and shifts of 8 to 56 bits |
| JavaInts.ShiftInByte | src/main/java/ru/maklas/mrudp2/PacketType.java:65-66 | `result <<= 8; result \|= b & 0xFF` in `long` arithmetic is the wrapped value of `result * 256 + (b & 0xFF)` |
| JavaInts.Wrap64Unique | src/main/java/ru/maklas/mrudp2/PacketType.java:65 | a 64-bit value that differs from `x` by a multiple of 2^64 is `x`'s wrap |
| PacketType.PutShort | src/main/java/ru/maklas/mrudp2/PacketType.java:25-28 | the array afterwards is the old one with just `offset` and `offset+1` replaced, by the two bytes of `value` high byte first |
| PacketType.PutInt | src/main/java/ru/maklas/mrudp2/PacketType.java:36-41 | the array afterwards is the old one with just the 4 bytes from `offset` replaced by `value`'s big-endian bytes |
| PacketType.PutLong | src/main/java/ru/maklas/mrudp2/PacketType.java:51-60 | the array afterwards is the old one with just the 8 bytes from `offset` replaced by `value`'s big-endian bytes |
| PacketType.OverwriteAt | src/main/java/ru/maklas/mrudp2/PacketType.java:25-60 | an overwrite changes the bytes under the written window to the written ones and leaves every other byte as it was |
| PacketType.ExtractShort | src/main/java/ru/maklas/mrudp2/PacketType.java:30-34 | the result lies in [-32768, 32767] and is negative exactly when the high byte is, because that byte is sign-extended |
| PacketType.ExtractInt | src/main/java/ru/maklas/mrudp2/PacketType.java:43-49 | the result is a 32-bit `int`, negative exactly when `bytes[offset]` is |
| PacketType.ExtractLong | src/main/java/ru/maklas/mrudp2/PacketType.java:62-69 | the loop returns a 64-bit `long`: the signed big-endian value of the 8 bytes from `offset` |
| PacketType.ShortRoundTrip | src/main/java/ru/maklas/mrudp2/PacketType.java:25-34 | `extractShort(putShort(v))` is `v` for `v` in [-32768, 32767], `v - 65536` for `v` in [32768, 65535], and `v` reduced to a signed short in general |
| PacketType.ShortBytesValue | src/main/java/ru/maklas/mrudp2/PacketType.java:25-34 | reading back the two bytes written gives `value` reduced to a signed short |
| PacketType.IntRoundTrip | src/main/java/ru/maklas/mrudp2/PacketType.java:36-49 | `extractInt(putInt(v))` is `v` for every 32-bit `v`; byte 0 is the most significant byte and byte 3 the least |
| PacketType.LongRoundTrip | src/main/java/ru/maklas/mrudp2/PacketType.java:51-69 | the 8 bytes `putLong` writes read back as `v` for every 64-bit `v` |
| PacketType.ShortRoundTripAt | src/main/java/ru/maklas/mrudp2/PacketType.java:25-34 | the short round trip holds at any offset of any array |
| PacketType.IntRoundTripAt | src/main/java/ru/maklas/mrudp2/PacketType.java:36-49 | the int round trip holds at any offset of any array |
| PacketType.LongRoundTripAt | src/main/java/ru/maklas/mrudp2/PacketType.java:51-69 | the long round trip holds at any offset of any array |
| PacketType.ShortBytesAreBigEndian | src/main/java/ru/maklas/mrudp2/PacketType.java:25-28 | the bytes `putShort` writes are the 2-byte big-endian encoding: byte `j` is `(byte)(value / 256^(1-j))` |
| PacketType.IntBytesAreBigEndian | src/main/java/ru/maklas/mrudp2/PacketType.java:36-41 | the bytes `putInt` writes are the 4-byte big-endian encoding |
| PacketType.LongBytesAreBigEndian | src/main/java/ru/maklas/mrudp2/PacketType.java:51-60 | the bytes `putLong` writes are the 8-byte big-endian encoding |
| PacketType.LongByte | src/main/java/ru/maklas/mrudp2/PacketType.java:52-59 | byte `j` of `putLong` is `(byte)(value / 256^(7-j))` |
| PacketType.BigEndianAt | src/main/java/ru/maklas/mrudp2/PacketType.java:36-60 | byte `j` of the reference big-endian encoding is the byte of the value shifted right by `n-1-j` bytes |
| PacketType.UnsignedBigEndian | src/main/java/ru/maklas/mrudp2/PacketType.java:62-69 | the unsigned value of the `n`-byte encoding of `x` is `x` modulo 256^n |
| PacketType.UnsignedBound | src/main/java/ru/maklas/mrudp2/PacketType.java:62-69 | `n` bytes read as unsigned stay below 256^n |
| PacketType.ShrBytesIsDiv | src/main/java/ru/maklas/mrudp2/PacketType.java:52-58 | shifting right by `n` bytes is division by 256^n |
| PacketType.ToShort | src/main/java/ru/maklas/mrudp2/PacketType.java:30-34 | the signed-short reduction lies in [-32768, 32767] and is congruent to its input modulo 65536 |
| PacketBatch.MeasureBatch | src/main/java/ru/maklas/mrudp2/PacketType.java:76-86 | the first loop ends with `retSize` = 6 + Σ(len + 2) over the greedy run from `pos`, and `endIIncluded` = its last index (`pos` when it is empty) |
| PacketBatch.Fit | src/main/java/ru/maklas/mrudp2/PacketType.java:79-86 | the reference for the greedy packing: how many payloads from `lo` on fit a given room, each taking its length plus 2; the run never reaches past the end of the list |
| PacketBatch.FitMaximal | src/main/java/ru/maklas/mrudp2/PacketType.java:79-86 | the packing is maximal: the payload after the run would overflow the room left, so none is skipped and none could be added |
| PacketBatch.FitFits | src/main/java/ru/maklas/mrudp2/PacketType.java:79-86 | the run taken fits the room: its framed size is at most `bufferSize - 6` |
| PacketBatch.FitSummary | src/main/java/ru/maklas/mrudp2/PacketType.java:79-90 | the run is empty exactly when `pos` is past the end or the first payload plus 8 exceeds `bufferSize`; otherwise its framed size fits |
| PacketBatch.FitExample | src/main/java/ru/maklas/mrudp2/PacketType.java:79-86 | three 100-byte payloads and a 256-byte buffer: two are packed, into 210 bytes |
| PacketBatch.FramedSizeGrows | src/main/java/ru/maklas/mrudp2/PacketType.java:98-104 | the framed size of a longer run is at least that of a shorter one, so the fill loop stays within `ret` |
| PacketBatch.ArrayCopy | src/main/java/ru/maklas/mrudp2/PacketType.java:102 | `System.arraycopy` replaces exactly the destination window by the source bytes |
| PacketBatch.PutEntry | src/main/java/ru/maklas/mrudp2/PacketType.java:99-103 | one fill step writes the length prefix and the payload at `position`, and nothing else |
| PacketBatch.FillBatch | src/main/java/ru/maklas/mrudp2/PacketType.java:97-104 | the fill loop writes the framed run from byte 6 on and leaves bytes 0 to 5 alone |
| PacketBatch.BuildSafeBatch | src/main/java/ru/maklas/mrudp2/PacketType.java:74-106 | success exactly when `pos` is in range and its payload plus 8 fits `bufferSize`; out-of-range `pos` throws index-out-of-bounds and a too-big payload throws the "can't fit" exception; on success the fresh datagram is the header plus the greedy run, at most `bufferSize` bytes long, and the returned index `pos + count` is greater than `pos` |
| PacketBatch.BatchHeader | src/main/java/ru/maklas/mrudp2/PacketType.java:94-96 | `ret[0]` is `settings`, bytes 1 to 4 read back as `seq`, and `ret[5]` is the count cast to a byte |
| PacketBatch.NextPacket | src/main/java/ru/maklas/mrudp2/PacketType.java:116-118 | a payload read at `pos` has the length its prefix gives and lies within the data; otherwise the exception `extractShort`, `new byte[]` or `arraycopy` would throw |
| PacketBatch.UnbatchFrom | src/main/java/ru/maklas/mrudp2/PacketType.java:115-120 | reading `n` payloads one after the other: on success exactly `n` payloads come back, else the first fault met |
| PacketBatch.Unbatch | src/main/java/ru/maklas/mrudp2/PacketType.java:111-122 | the reference for `breakBatchDown`: on success the data has the 6-byte header and exactly `data[5]` payloads come back; shorter data or a negative count throws |
| PacketBatch.BreakBatchDown | src/main/java/ru/maklas/mrudp2/PacketType.java:111-122 | the loop returns the `fullData[5]` payloads read one after the other, or the first exception on the way |
| PacketBatch.PacketAt | src/main/java/ru/maklas/mrudp2/PacketType.java:116-118 | a payload behind a correct length prefix is read back whole |
| PacketBatch.FrameHead | src/main/java/ru/maklas/mrudp2/PacketType.java:99-103 | the first entry of a framed run reads back as its payload, and the rest of the run follows it |
| PacketBatch.FrameIsFramed | src/main/java/ru/maklas/mrudp2/PacketType.java:97-104 | when every length fits a signed short, each entry the fill loop wrote reads back as its payload, in order |
| PacketBatch.UnbatchFramed | src/main/java/ru/maklas/mrudp2/PacketType.java:115-120 | the decoding loop over such entries yields exactly those payloads |
| PacketBatch.BatchRoundTrip | src/main/java/ru/maklas/mrudp2/PacketType.java:92-121 | `breakBatchDown` of a built batch returns `array[pos..next)` in order, when the count is at most 127 and every length at most 32767 |
| PacketBatch.BatchCountNegative | src/main/java/ru/maklas/mrudp2/PacketType.java:96 | a count of 128 to 255 is stored as a negative byte, and decoding throws a negative-array-size exception |
| PacketBatch.BatchCountWraps | src/main/java/ru/maklas/mrudp2/PacketType.java:96 | a count that is a multiple of 256 is stored as 0, and decoding returns no payload at all |
| PacketBatch.BatchLengthNegative | src/main/java/ru/maklas/mrudp2/PacketType.java:101 | a first payload of 32768 to 65535 bytes gets a negative length prefix, and decoding throws |
| Server.IndexOf | src/main/java/ru/maklas/mnet2/ServerSocket.java:84 | `socketMap.get`: a found index holds a socket for that peer; none is found exactly when no socket has it |
| Server.IndexOfUnique | src/main/java/ru/maklas/mnet2/ServerSocket.java:84 | with one socket per peer, the lookup finds that socket |
| Server.RouteOf | src/main/java/ru/maklas/mnet2/ServerSocket.java:68-96 | one datagram's route: discovery is answered only with a handler; a forward needs a non-discovery datagram of more than 5 bytes and goes to a socket for the sender; a datagram is queued only when it is a long enough connection request from an unmapped peer |
| Server.DiscoveryIgnoresMapAndLength | src/main/java/ru/maklas/mnet2/ServerSocket.java:68-81 | a discovery datagram is answered exactly when a handler is present and ignored otherwise, whatever its length, its sender and the socket map |
| Server.ShortDatagramIgnored | src/main/java/ru/maklas/mnet2/ServerSocket.java:82 | any other datagram of at most 5 bytes is dropped |
| Server.MappedPeerForwarded | src/main/java/ru/maklas/mnet2/ServerSocket.java:84-86 | a long enough non-discovery datagram from a mapped peer goes to that peer's socket, even when it is a connection request |
| Server.EnqueuedIff | src/main/java/ru/maklas/mnet2/ServerSocket.java:82-96 | a datagram is queued as a connection request exactly when it is a long enough connection request, not a discovery, from a peer with no socket |
| Server.ForwardInRange | src/main/java/ru/maklas/mnet2/ServerSocket.java:84-86 | a forwarded datagram goes to an existing socket for its sender |
| Server.ServerSocket.Receive | src/main/java/ru/maklas/mnet2/ServerSocket.java:58-97 | one pass of the receive loop: the buffer takes the datagram, the map never changes, a request with `deserialize(buffer[1..len])` is queued only on the route above, the calls are only those of the route; once the socket is closed nothing happens |
| Server.SweepAction | src/main/java/ru/maklas/mnet2/ServerSocket.java:134-141 | the sweep's calls for a socket concern that socket only |
| Server.SweepPerSocket | src/main/java/ru/maklas/mnet2/ServerSocket.java:133-142 | every mapped socket gets exactly one action: a timeout disconnection when more than `inactivityTimeout` ms have passed, else a resend and ping check if connected; an unmapped peer gets none |
| Server.TimeoutBoundary | src/main/java/ru/maklas/mnet2/ServerSocket.java:135 | the timeout is strict: at exactly `inactivityTimeout` ms the socket is kept, one ms later it is timed out |
| Server.ServerSocket.Sweep | src/main/java/ru/maklas/mnet2/ServerSocket.java:130-144 | the sweep makes exactly those calls in map order and changes neither the map nor the queue |
| Server.ServerSocket.GetSockets | src/main/java/ru/maklas/mnet2/ServerSocket.java:170-178 | the caller's own list object is cleared and refilled in place with every mapped socket, in map order, and that same object is returned |
| Server.ServerSocket.AllSockets | src/main/java/ru/maklas/mnet2/ServerSocket.java:166-168 | `getSockets()` returns a new list holding every mapped socket, in map order |
| Server.CloseEverySocketOnce | src/main/java/ru/maklas/mnet2/ServerSocket.java:184-188 | `close` closes every mapped socket exactly once with `SERVER_SHUTDOWN` and makes no call about any other peer |
| Server.ServerSocket.Close | src/main/java/ru/maklas/mnet2/ServerSocket.java:184-190 | every mapped socket is closed in map order, and only then the UDP socket |
| Server.ServerSocket.Poll | src/main/java/ru/maklas/mnet2/ServerSocket.java:109 | `poll` removes and returns the head of the queue, or returns `null` on an empty queue |
| Server.AdmitStepGrows | src/main/java/ru/maklas/mnet2/ServerSocket.java:111-121 | one request keeps every socket and call, adds at most one socket, keeps peers unique, and leaves an accepted request's peer mapped |
| Server.AdmitStepKeepsMapped | src/main/java/ru/maklas/mnet2/ServerSocket.java:111-121 | a peer that is mapped stays mapped |
| Server.ServerSocket.HandleRequest | src/main/java/ru/maklas/mnet2/ServerSocket.java:111-121 | a request from a mapped peer is dropped; otherwise exactly one `Connection` goes to the authenticator, then a default rejection if no choice was made, and an accepted socket is registered |
| Server.AdmitAllInvariant | src/main/java/ru/maklas/mnet2/ServerSocket.java:108-125 | draining never removes a socket, never maps a peer twice, keeps every earlier call, and leaves every accepted request's peer mapped |
| Server.AdmitAllSkipsMapped | src/main/java/ru/maklas/mnet2/ServerSocket.java:111-112 | requests from peers that are all mapped create no connection and no call |
| Server.AdmitAllCallBound | src/main/java/ru/maklas/mnet2/ServerSocket.java:114-121 | each request adds at most one socket and at most two calls (the connection and its default rejection) |
| Server.ServerSocket.ProcessAuth | src/main/java/ru/maklas/mnet2/ServerSocket.java:108-125 | the corrected drain handles every queued request in order and ends with an empty queue |
| Server.MappedRequestSpins | src/main/java/ru/maklas/mnet2/ServerSocket.java:110-112 | as written, once `poll` holds a request from a mapped peer, every later pass leaves the loop state unchanged with `poll != null` |
| Server.DuplicateRequestSpins | src/main/java/ru/maklas/mnet2/ServerSocket.java:109-124 | as written, two accepted requests from one new peer leave the loop stuck on the second request for ever |
| Server.AsWrittenAgreesWithoutDuplicates | src/main/java/ru/maklas/mnet2/ServerSocket.java:108-125 | when no request meets a mapped peer, the loop as written ends and does what the corrected drain does |
| Server.AuthIteration | src/main/java/ru/maklas/mnet2/ServerSocket.java:110-123 | one pass of the loop as written: a request from a mapped peer leaves the whole state unchanged (no re-poll), and any other request is admitted and the next one polled |
| Server.AuthIterate | src/main/java/ru/maklas/mnet2/ServerSocket.java:109-124 | `n` passes of the loop as written: the queue is never changed, and `poll` moves forward by at most one request per pass, never backward |
| Server.ServerSocket.Update | src/main/java/ru/maklas/mnet2/ServerSocket.java:100-103 | `update` is the sweep over the old map followed by the corrected admission drain (see "## Findings"): the queue ends empty, where the drain as written can spin |
| Server.ServerSocket.constructor | src/main/java/ru/maklas/mnet2/ServerSocket.java:35-47 | a new server has the given configuration, an empty map and queue, a fresh buffer of `bufferSize` bytes, and an open socket |

## Left out

- The receive thread, its start in the constructor, the `synchronized` blocks and all cross-thread handoff. Each datagram and each `update` is one atomic step.
- UDP I/O (`receive`, `send`, `DatagramPacket`) and the retry loop on a transient `IOException`. A datagram is a parameter of `Receive`, and a closed socket ends the loop.
- `System.currentTimeMillis`. The time is the parameter `now`.
- The serializer, the authenticator and the discovery handler's payload. They are parameters: a deserialization outcome per byte string, and a decision per request.
- What a `Connection` does on accept is not part of this model. The model assumes an accepted connection registers its socket at the end of the map, with watchdog fields that the decision carries.
- `SocketImpl` internals: the reliable queue, acks, pings, resends, `receiveData`, `close`, and updates to its own `lastTimeReceivedMsg` and connected flag. These appear only as calls in the trace. The model never changes a mapped socket's watchdog fields.
- `removeMe` and `SocketMap.remove`: `SocketMap` is not part of this model, and sockets leave the map only through `SocketImpl` code that is not shown. In the model, sockets never leave the map.
- `getSize` and `isClosed`: plain getters of the map's size and of the socket's closed flag, which are already fields of the model.
- Server.ServerSocket.Receive: the model's request queue is unbounded, and an enqueued request is always appended. The queue's capacity of 1000 (`ServerSocket.java:43`) and what `AtomicQueue.put` does on a full queue are not part of this model. Appending onto a queue that already holds 1000 requests is therefore an assumption.
- The tag values of `mnet2.PacketType` are not part of this model. `discovery` and `connectionRequest` are constructor parameters.
- The tag constants of `mrudp2.PacketType` (`PacketType.java:7-19`) are not modelled. The modelled codec never reads them, and `buildSafeBatch` writes its `settings` argument as byte 0.
- Server.ServerSocket.constructor: requires `bufferSize > 0`. With a zero-length buffer, `buffer[0]` would throw on the first datagram and kill the receive thread. With a negative size, `new byte[bufferSize]` (`ServerSocket.java:53`) throws `NegativeArraySizeException` as soon as `run` starts.
- Server.ServerSocket.constructor: assumes the given `UDPSocket` is open (`!udpClosed`). The Java constructor takes the caller's socket in whatever state it is in. With a socket that is already closed, `run` would exit on its first `receive`.
- PacketBatch.BuildSafeBatch: requires that Java `int` sizes never overflow (`NoSizeOverflow`). `bufferSize` must be a 32-bit `int`, and for every payload both `length + 8` and `length + 2 + bufferSize` must stay below 2^31. The second clause also excludes inputs where Java computes without overflow, such as `bufferSize = Integer.MAX_VALUE` with a 1-byte payload.
- PacketType.PutShort, PacketType.PutInt, PacketType.PutLong, PacketType.ExtractShort, PacketType.ExtractInt, PacketType.ExtractLong: require offsets within the array. The source throws `ArrayIndexOutOfBoundsException` there, which is not modelled for these helpers.
- PacketBatch.BuildSafeBatch: `MRUDPBatch` is modelled as a sequence of payload values. Aliasing between the payload arrays and the datagram is not modelled.
- PacketBatch.BreakBatchDown: reads `fullData` once as a sequence, and returns `byte[][]` as a sequence of payload sequences.
- PacketBatch.BatchRoundTrip: holds only for counts up to 127 and lengths up to 32767. What happens beyond those limits is stated by BatchCountNegative, BatchCountWraps and BatchLengthNegative. Whether `MRUDPBatch` caps either is not part of this model.
- Map iteration order is `SocketMap.sockets`' list order, with admitted sockets appended at the end.
- src/test/java/ru/maklas/mnet2/TestUtils.java and ServerLooper.java: a threaded test harness. src/main/java/ru/maklas/mrudp2/SocketIterator.java: an interface with no logic.

## Findings

| source | as written | input that shows it | evidently intended | confidence | as-written member | corrected member |
|---|---|---|---|---|---|---|
| src/main/java/ru/maklas/mnet2/ServerSocket.java:110-112 | for a request whose peer is already in the socket map, `continue` jumps back to `while(poll != null)` without the `poll = connectionRequests.poll()` of line 123, so `poll` never changes inside the loop and `update` never returns while that peer stays mapped (only another thread removing its socket could end the spin) | two connection requests from the same new peer queued before one `update`, the first accepted by the authenticator | drop the duplicate and poll the next request, draining the queue | not executed | Server.AuthIteration, Server.AuthIterate, Server.MappedRequestSpins, Server.DuplicateRequestSpins | Server.ServerSocket.ProcessAuth, Server.ServerSocket.Update, Server.AdmitAllInvariant |
