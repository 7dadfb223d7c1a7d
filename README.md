# WGSocketManager, modelled in Dafny

WGSocketManager is a TCP client for iOS. It sends structured messages
(arrays and dictionaries) to a server as length-prefixed frames and
reads frames back. Each frame is a 7-byte header followed by a body:

- bytes 0–3 hold the total length of the frame, header included;
- bytes 4–6 hold the dataType, the encodeType and the compressType.

On the way out a message goes through three stages: it is formatted as
JSON (WGDataManager), encrypted (WGEncodeManager, XOR with a cyclic key
for encodeType 1) and compressed (WGCompressManager). On the way in the
same stages run in reverse order.

The manager keeps this state:

- the receive accumulator `tempReadData`;
- the awaited frame length `readDataLength`, which is 0 until a header has been read;
- the unwritten tail of a partial write, `tempWriteData`;
- the length of the last write, `writeDataLength`;
- the `connected` flag.

Its delegate is told when a connection succeeds, when a message is
received and when a connection fails.

The project has seven modules, one file each:

- `Wrappers` (`wrappers.dfy`): `Option`, standing for Swift's optionals.
- `Bytes` (`bytes.dfy`): one fact about converting between `int` and `bv8`.
- `LengthField` (`length_field.dfy`): the 4-byte length field. It holds
  `convertToByteFrom`, `convertToIntFromByteArr` as written, and an exact
  big-endian reading to compare them with.
- `Framing` (`framing.dfy`): the wire format and the byte-level receive
  path as values. `Analyse(buf, awaited)` is what one call of
  `analyseData` does to the accumulator and the cached length. The lemmas
  cover chunking, round trips and stalls.
- `EncodeManager` (`encode_manager.dfy`): the XOR stage. `Write` is a
  loop proved against the function `Encoded`.
- `DataManager` (`data_manager.dfy`): the JSON stage. It keeps the
  dataType and container gate. The platform's serializer is a pair of
  functions supplied by the caller.
- `SocketManager` (`socket_manager.dfy`): the class `SocketManager`,
  with the fields above and an event log `log` that records streams
  opened and closed, bytes offered to the output stream, and delegate
  calls. Each method that does I/O takes the stream's answer as a
  parameter: the bytes a read returned, or what a write accepted.

Every method of the class is proved against a function of the old state.
`ReadData` and `AnalyseData` leave the accumulator, the cached length
and the log exactly as `Analyse` says. The class invariant `Valid()`
says four things:

- the cached length is 0 or what the header announces;
- the accumulator holds no complete frame (`Settled`, which
  `SettledIsFixpoint` shows is exactly "analysing again changes nothing");
- a pending write is never empty;
- nothing is pending while disconnected.

The length decoder does not invert the encoder. `convertToIntFromByteArr`
ORs the three upper bytes together and shifts the result by 8. So it agrees
with big-endian decoding exactly when the two upper bytes are zero, that
is for frames shorter than 65536 bytes. The model keeps the decoder as
written:

- `DecodeEncodeIff` proves the round trip holds exactly below 2^16;
- `DecoderMisreadsLongFrame` shows that a 65543-byte frame is announced
  as 263 bytes;
- `OversizedFrameMisread` shows that no frame of 2^16 bytes or more is
  read back as itself.

An exact big-endian reader would invert the encoder for every length below
2^32 (`BigEndianDecodeEncode`).

The code does some things a cleaner design would not. The model follows
the code in each case:

- A header announcing 7 bytes or fewer is not rejected. `analyseData`
  returns with the accumulator intact, and every later read appends to
  it, so nothing is ever delivered again on that connection
  (`ShortLengthStallsForever`). The connection is not closed.
- On a writable event the code calls the connect-succeeded delegate
  method first and only then looks at the pending write. A pending write
  exists only while connected, though: `disconnectToServer` clears it, and
  the class invariant says so. So the event that connects never has a
  write to retry, and the callback and a retry never happen in the same
  event (`StreamHasSpaceAvailable`).
- `sendDataToServerWith(data: Any)` does not check for a pending partial
  write. A new frame is offered at once. When the stream takes all of it,
  the unwritten tail of the earlier frame is discarded. The peer then
  receives a truncated frame followed by the new one, which desynchronises
  its framing (`NewSendDropsPendingTail`).
- `connectToServerWith` first disconnects, even when it then filters
  out an empty host or port 0. A filtered call therefore still tears
  down an established connection.
- The delegate's `dataLength` is the frame's total length, header
  included, not the length of the body.

## Model

| member | source | states |
|---|---|---|
| LengthField.ConvertToByteFrom | WGSocketManager/WGSocketManager.swift:188-196 | the result is 4 bytes whose big-endian reading is n mod 2^32, so they are the bytes (n>>24)&255, (n>>16)&255, (n>>8)&255, n&255 |
| LengthField.LowByte | WGSocketManager/WGSocketManager.swift:190-193 | `UInt8(x & 255)` is the byte whose value is x mod 256 |
| LengthField.ConvertToIntFromByteArr | WGSocketManager/WGSocketManager.swift:203-211 | the shift-and-OR expression equals (b0 OR b1 OR b2) * 256 + b3: the three upper bytes collapse into one |
| LengthField.DecoderAgreesWithBigEndianIff | WGSocketManager/WGSocketManager.swift:203-211 | the decoder never yields 2^16 or more, and it equals big-endian decoding if and only if the two upper bytes are zero |
| LengthField.DecodeEncodeIff | WGSocketManager/WGSocketManager.swift:188-211 | decoding the encoding of n gives n back if and only if n < 2^16 |
| LengthField.BigEndianDecodeEncode | WGSocketManager/WGSocketManager.swift:188-196 | an exact big-endian reader inverts the encoder for every n < 2^32 |
| LengthField.DecoderMisreadsLongFrame | WGSocketManager/WGSocketManager.swift:188-211 | 65543 encodes as [0, 1, 0, 7], which the decoder reads as 263 |
| Framing.Wrap | WGSocketManager/WGSocketManager.swift:238-249 | a built frame is body.count + 7 bytes long, its first 4 bytes announce that length big-endian, bytes 4-6 are the three types and the rest is the body |
| Framing.WireHeader | WGSocketManager/WGSocketManager.swift:238-249 | for a frame shorter than 2^16 bytes, the receiver decodes the header's length as the frame's length and reads back the same types and body |
| Framing.Analyse | WGSocketManager/WGSocketManager.swift:343-396 | a cached length consistent with the accumulator stays consistent with what is left |
| Framing.AnalyseLeavesSuffix | WGSocketManager/WGSocketManager.swift:379-394 | what is left in the accumulator is a suffix of what was there |
| Framing.AnalyseAccountsForEveryByte | WGSocketManager/WGSocketManager.swift:368-394 | the lengths of the delivered frames plus the leftover bytes add up to the accumulator's length: nothing is lost or duplicated |
| Framing.ShortBufferChangesNothing | WGSocketManager/WGSocketManager.swift:346-349 | with fewer than 4 buffered bytes nothing is delivered, consumed or cached |
| Framing.IncompleteFrameWaits | WGSocketManager/WGSocketManager.swift:352-359 | the cached length is used as it is and only an empty cache is decoded; while the frame is incomplete or its length is at most 7, nothing is delivered or consumed and the length stays cached |
| Framing.CompleteFrameDelivered | WGSocketManager/WGSocketManager.swift:362-388 | a complete frame is delivered with its types from bytes 4, 5 and 6 and its body from byte 7 to the announced length, and its total length is the announced length; the bytes after it are analysed in turn with no length cached |
| Framing.OnlyFrameDelivered | WGSocketManager/WGSocketManager.swift:362-394 | an accumulator holding exactly one complete frame delivers it and is emptied with the cached length reset to 0 |
| Framing.CachedLengthIsHarmless | WGSocketManager/WGSocketManager.swift:352-357 | a consistent cached length gives the same result as decoding the header again |
| Framing.CachingDecodedLength | WGSocketManager/WGSocketManager.swift:352-357 | caching the decoded length before analysing changes nothing |
| Framing.AppendKeepsAwaited | WGSocketManager/WGSocketManager.swift:329-333 | appending read bytes never invalidates a cached length |
| Framing.AnalyseAppend | WGSocketManager/WGSocketManager.swift:318-396 | analysing p + q equals analysing p, appending q to what is left and analysing again; the frames are delivered in the same order |
| Framing.AnalyseSettles | WGSocketManager/WGSocketManager.swift:343-396 | analysing what one analysis left changes nothing |
| Framing.SettledIsFixpoint | WGSocketManager/WGSocketManager.swift:343-396 | a consistent accumulator holds no complete frame (`Settled`) if and only if analysing it changes nothing |
| Framing.ReadAllIsAnalyse | WGSocketManager/WGSocketManager.swift:318-396 | from a settled accumulator, a series of reads, each appending and analysing, delivers what one read of all the bytes would |
| Framing.CompleteCount | WGSocketManager/WGSocketManager.swift:379-394 | the count of frames lying wholly within the first n bytes is the largest k whose frames fit in n bytes |
| Framing.PrefixDelivery | WGSocketManager/WGSocketManager.swift:343-396 | after any prefix of a stream of well-formed frames, exactly the frames wholly inside it have been delivered, in order, and the accumulator holds the start of the next one |
| Framing.WaitingForFrame | WGSocketManager/WGSocketManager.swift:359 | while a well-formed frame is still arriving, nothing is delivered or consumed |
| Framing.WireRoundTrip | WGSocketManager/WGSocketManager.swift:238-249 | well-formed frames sent back to back and read at once are delivered exactly, in order, leaving the accumulator empty |
| Framing.ChunkedDelivery | WGSocketManager/WGSocketManager.swift:318-396 | however such a stream is cut into reads, exactly its frames are delivered, in order, each once, and the accumulator ends empty with no length cached |
| Framing.PartialFrameWaits | WGSocketManager/WGSocketManager.swift:359 | no part of a frame is delivered before its last byte arrives |
| Framing.ShortLengthStallsForever | WGSocketManager/WGSocketManager.swift:359 | once a header announcing 7 bytes or fewer is buffered, nothing is delivered whatever arrives later, and the accumulator keeps every byte |
| Framing.OversizedFrameMisread | WGSocketManager/WGSocketManager.swift:203-211 | a frame of 2^16 bytes or more is never read back as itself |
| EncodeManager.Write | WGSocketManager/WGEncodeManager.swift:19-43 | the loop's result is `Encoded`: XOR with the cyclic key in mode 1, the input unchanged otherwise |
| EncodeManager.Read | WGSocketManager/WGEncodeManager.swift:51-61 | decryption re-applies `Write` in mode 1 and returns the input otherwise, so it computes the same `Encoded` |
| EncodeManager.OtherTypesAreIdentity | WGSocketManager/WGEncodeManager.swift:24-42 | for every encodeType other than 1 the stage is the identity |
| EncodeManager.XorBytewise | WGSocketManager/WGEncodeManager.swift:33-38 | in mode 1 the output has the input's length and byte i is input[i] XOR key[i mod key length] |
| EncodeManager.XorInvolution | WGSocketManager/WGEncodeManager.swift:34-38 | encrypting twice with the same key gives the data back |
| EncodeManager.RoundTrip | WGSocketManager/WGEncodeManager.swift:51-61 | `read(write(d, t, k), t, k) == d` for every encodeType t and non-empty key k |
| DataManager.Write | WGSocketManager/WGDataManager.swift:19-29 | there is a result exactly when dataType is 1, the value is an array or dictionary and the serializer succeeds; the result is the serializer's |
| DataManager.Read | WGSocketManager/WGDataManager.swift:37-47 | any dataType other than 1 yields nothing; dataType 1 yields the parser's result |
| SocketManager.GetDataWith | WGSocketManager/WGSocketManager.swift:262-278 | there is a body exactly when the formatting stage accepts the value; encryption and compression never fail |
| SocketManager.PipelineRoundTrip | WGSocketManager/WGSocketManager.swift:262-278 | for any encodeType and compressType, a body built by the send pipeline is disposed of by the receive pipeline (lines 405-418) as the value it was made from, given a parser that reads the serializer's output back and a compressor whose read undoes its write |
| SocketManager.GetSendDataFrom | WGSocketManager/WGSocketManager.swift:220-252 | a frame is produced exactly when the value is an array or dictionary the serializer accepts; it is at least 7 bytes long and carries the types 1, 0, 0 in bytes 4-6 |
| SocketManager.Deliveries | WGSocketManager/WGSocketManager.swift:405-430 | one delegate call per frame, in order |
| SocketManager.PendingAfterWrite | WGSocketManager/WGSocketManager.swift:296-310 | a failed write keeps the pending data; a short write keeps exactly the unwritten, non-empty suffix; a full write or no stream clears it |
| SocketManager.FrameThenRestLog | WGSocketManager/WGSocketManager.swift:376-387 | delivering the first frame and then analysing the rest logs the same delegate calls, and leaves the same state, as analysing the whole accumulator |
| SocketManager.SentMessageIsReceived | WGSocketManager/WGSocketManager.swift:220-430 | a message sent with the fixed types, shorter than 2^16 bytes, reaches the receiving delegate as the value it was made from, with the frame's length, however the bytes are split into reads |
| SocketManager.SocketManager.constructor | WGSocketManager/WGSocketManager.swift:51-76 | a new manager is disconnected with empty buffers and satisfies the invariant |
| SocketManager.SocketManager.ConnectToServerWith | WGSocketManager/WGSocketManager.swift:87-124 | an established connection is torn down first; the streams are opened unless the host is empty or the port is 0 |
| SocketManager.SocketManager.DisconnectToServer | WGSocketManager/WGSocketManager.swift:129-153 | a no-op when not connected; otherwise the buffers and the cached length are cleared, the streams closed and `connected` reset |
| SocketManager.SocketManager.SendDataToServerWith | WGSocketManager/WGSocketManager.swift:159-177 | nothing happens unless connected and a frame was produced; then the frame is written as `SendBytesToServerWith` does |
| SocketManager.SocketManager.SendBytesToServerWith | WGSocketManager/WGSocketManager.swift:284-311 | empty data changes nothing; otherwise `writeDataLength` is its length, the write is logged when there is a stream, and the pending data follows `PendingAfterWrite` |
| SocketManager.SocketManager.ReadData | WGSocketManager/WGSocketManager.swift:318-338 | a failed read changes nothing; otherwise the new accumulator, cached length and delegate calls are those of `Analyse` on the old accumulator plus the bytes read, and the invariant is kept |
| SocketManager.SocketManager.AnalyseData | WGSocketManager/WGSocketManager.swift:343-396 | the new accumulator, cached length and delegate calls are those of `Analyse` on the old state, and the accumulator is left settled |
| SocketManager.SocketManager.TakeFrame | WGSocketManager/WGSocketManager.swift:362-394 | with a complete frame buffered, the frame is delivered and the rest analysed, ending in `Analyse`'s state |
| SocketManager.SocketManager.DisposeDataWith | WGSocketManager/WGSocketManager.swift:405-430 | the body is decompressed, decrypted and parsed, and the result is reported with `readDataLength` |
| SocketManager.SocketManager.StreamHasSpaceAvailable | WGSocketManager/WGSocketManager.swift:464-491 | the first writable event after a disconnect sets `connected` and logs the success callback, and has no pending write to retry; a later writable event offers a pending write again as `SendBytesToServerWith` does; without a pending write, `writeDataLength` is reset |
| SocketManager.NewSendDropsPendingTail | WGSocketManager/WGSocketManager.swift:159-177 | while a partial write is pending, sending a new message whose frame the stream takes in full clears the pending tail and logs only the new frame's write: the tail is never written |
| SocketManager.SocketManager.StreamFailed | WGSocketManager/WGSocketManager.swift:493-515 | on an error or end of stream the connection is torn down and the failure callback logged |

## Left out

- Stream creation, opening, closing, run-loop scheduling and the stream
  objects themselves: the transport is a parameter of each method. A read
  reports `Option` bytes (None for -1 or no stream). A write reports a
  `WriteResult`. Opening and closing appear in the log as `Opened` and `Closed`.
- `ConnectToServerWith`: a stream pair that cannot be created is not
  modelled; opening always succeeds. A port outside 0 to 2^32 - 1, on
  which `UInt32(port)` traps, is excluded by the precondition.
- `DispatchQueue` asynchrony and `DispatchQueue.main.sync`: every queued
  block is taken to run to completion before the next event. In the
  source, `stream(_:handle:)` runs on the main thread while
  `disconnectToServer` and the retried write are queued. So the failure
  callback may in fact run before the teardown, and the model logs the
  teardown first. The retried write reads `tempWriteData` only when its
  block runs. If a queued `disconnectToServer` runs before it and clears
  `tempWriteData`, the force unwrap `self.tempWriteData!` at
  WGSocketManager.swift:483 traps. The model runs the retry within the
  event, so it never reaches that trap.
- The delegate's `responds(to:)` checks and the weak delegate reference:
  every delegate call is logged as if it were implemented.
- `sentTotalData` and `gotTotalData`: floating-point megabyte counters.
- The `openCompleted` and unknown stream events, which do nothing. The
  `hasBytesAvailable` event is `ReadData` itself.
- The singleton `manager`: the model allows any number of managers.
- WGCompressManager is not part of this model. It is the `Compressor`
  pair of functions supplied to the manager. `SentMessageIsReceived`
  assumes that its read undoes its write for compressType 0.
- `JSONSerialization` is not part of this model. It is the `Json` pair of
  functions, and a value is an array, a dictionary or a scalar.
- Swift `Int` overflow: lengths are unbounded naturals. The encoder
  masks explicitly, as the source does.
- `SocketManager.SocketManager.TakeFrame` is the tail of `analyseData`
  from step 2 on, split off as its own method. The recursion of
  `analyseData` goes through it.
- UTF-8 encoding of the key and host: the key "Veeco" is given as its
  bytes, and the host is a plain string.
- The demo view controller, which is user interface only.
