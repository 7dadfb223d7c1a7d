/**
 * The connection engine (class WGSocketManager): connection state, the
 * read accumulator, the pending partial write, the send and receive
 * transform pipelines, and the handling of stream events.
 *
 * The transport is not modelled: every call that would touch a stream
 * takes the stream's answer as a parameter (the bytes a read returned,
 * what a write accepted). What the manager does outwardly, opening and
 * closing the streams, writing bytes and calling its delegate, is
 * appended to an event log.
 */
module SocketManager {
  import opened Wrappers
  import opened LengthField
  import opened Framing
  import EncodeManager
  import DataManager

  /** kDataType: messages are JSON. */
  const SendDataType: bv8 := 1
  /** kEncodeType: messages are sent unencrypted. */
  const SendEncodeType: bv8 := 0
  /** kCompressType: messages are sent uncompressed. */
  const SendCompressType: bv8 := 0
  /** kEncodeKey, the string "Veeco" as UTF-8 bytes. */
  const EncodeKey: seq<bv8> := [0x56, 0x65, 0x65, 0x63, 0x6F]
  /** Size of the scratch buffer one read fills at most. */
  const ReadBufferSize: nat := 1024
  /** Ports are converted to UInt32 before the streams are created. */
  const PortLimit: int := 0x1_0000_0000

  /**
   * The compression stage (WGCompressManager), whose code is not part of
   * this model: `write` compresses with a compressType, `read` undoes it.
   */
  datatype Compressor = Compressor(write: (seq<bv8>, bv8) -> seq<bv8>, read: (seq<bv8>, bv8) -> seq<bv8>)

  /** What `outputStream?.write` returned: no stream (nil), -1, or a byte count. */
  datatype WriteResult = NoOutputStream | WriteFailed | Accepted(count: nat)
  {
    /** A stream never accepts more bytes than it was offered. */
    predicate Fits(n: nat) {
      Accepted? ==> count <= n
    }
  }

  /** Everything the manager does that can be seen from outside. */
  datatype Event =
    | Opened(host: string, port: int)                    // streams created, scheduled and opened
    | Closed                                             // streams closed and unscheduled
    | Wrote(bytes: seq<bv8>)                             // bytes offered to the output stream
    | ConnectSucceeded                                   // delegate method 1
    | Received(data: Option<DataManager.Value>, dataLength: nat)  // delegate method 2
    | ConnectFailed                                      // delegate method 3

  // ---------------------------------------------------------------------
  // The transform pipelines
  // ---------------------------------------------------------------------

  /** `getDataWith`: format, then encrypt, then compress; nothing when formatting fails. */
  function GetDataWith(json: DataManager.Json, compressor: Compressor,
                       dataType: bv8, encodeType: bv8, compressType: bv8,
                       data: DataManager.Value): (r: Option<seq<bv8>>)
    ensures r.Some? <==> DataManager.Write(json, data, dataType).Some?
    ensures r.Some? ==>
              r.value == compressor.write(EncodeManager.Encoded(DataManager.Write(json, data, dataType).value, encodeType, EncodeKey), compressType)
  {
    match DataManager.Write(json, data, dataType)
    case None => None
    case Some(formatted) =>
      Some(compressor.write(EncodeManager.Encoded(formatted, encodeType, EncodeKey), compressType))
  }

  /** `getSendDataFrom(originData:)`: the body through the pipeline with the fixed types, then framed. */
  function GetSendDataFrom(json: DataManager.Json, compressor: Compressor, data: DataManager.Value): (r: Option<seq<bv8>>)
    ensures r.Some? ==> |r.value| >= HeaderSize
    ensures r.Some? ==> r.value[4] == SendDataType && r.value[5] == SendEncodeType && r.value[6] == SendCompressType
    ensures r.Some? <==> data.IsContainer() && json.encode(data).Some?
  {
    match GetDataWith(json, compressor, SendDataType, SendEncodeType, SendCompressType, data)
    case None => None
    case Some(body) => Some(Wrap(body, SendDataType, SendEncodeType, SendCompressType))
  }

  /** What `disposeDataWith` hands to the delegate: decompress, then decrypt, then parse. */
  function DisposedValue(json: DataManager.Json, compressor: Compressor, frame: Frame): Option<DataManager.Value>
  {
    var decompressed := compressor.read(frame.body, frame.compressType);
    DataManager.Read(json, EncodeManager.Encoded(decompressed, frame.encodeType, EncodeKey), frame.dataType)
  }

  /** The delegate calls made for a run of frames, in order, each with the frame's total length. */
  function Deliveries(json: DataManager.Json, compressor: Compressor, fs: seq<Frame>): (r: seq<Event>)
    ensures |r| == |fs|
  {
    if fs == [] then []
    else [Received(DisposedValue(json, compressor, fs[0]), fs[0].TotalLength())] + Deliveries(json, compressor, fs[1..])
  }

  lemma DeliveriesCons(json: DataManager.Json, compressor: Compressor, f: Frame, fs: seq<Frame>)
    ensures Deliveries(json, compressor, [f] + fs)
            == [Received(DisposedValue(json, compressor, f), f.TotalLength())] + Deliveries(json, compressor, fs)
  {
    assert ([f] + fs)[1..] == fs;
  }

  lemma EventsAssociate(x: seq<Event>, y: seq<Event>, z: seq<Event>)
    ensures (x + y) + z == x + (y + z)
  {
  }

  /** The log `analyseData` produces for a buffer whose first frame is complete and followed by more bytes. */
  lemma FrameThenRestLog(json: DataManager.Json, compressor: Compressor, buf: seq<bv8>, awaited: nat, log0: seq<Event>)
    requires |buf| >= LengthFieldSize && HeaderSize < AwaitedLength(buf, awaited) < |buf|
    ensures var len := AwaitedLength(buf, awaited);
            var a := Analyse(buf, awaited);
            var next := Analyse(buf[len..], 0);
            var frame := Frame(buf[4], buf[5], buf[6], buf[HeaderSize..len]);
            && a.rest == next.rest && a.awaited == next.awaited
            && (log0 + [Received(DisposedValue(json, compressor, frame), len)]) + Deliveries(json, compressor, next.frames)
               == log0 + Deliveries(json, compressor, a.frames)
  {
    var len := AwaitedLength(buf, awaited);
    var frame := Frame(buf[4], buf[5], buf[6], buf[HeaderSize..len]);
    var next := Analyse(buf[len..], 0);
    CompleteFrameDelivered(buf, awaited);
    DeliveriesCons(json, compressor, frame, next.frames);
    EventsAssociate(log0, [Received(DisposedValue(json, compressor, frame), len)], Deliveries(json, compressor, next.frames));
  }

  /** The write logged for offering `data` to the output stream, if there is one. */
  function WriteAttempt(data: seq<bv8>, written: WriteResult): seq<Event>
  {
    if written.NoOutputStream? then [] else [Wrote(data)]
  }

  /**
   * `tempWriteData` after offering non-empty `data`: unchanged when the
   * write failed, the unwritten suffix after a short write, nothing once
   * all was written (or there was no stream to write to).
   */
  function PendingAfterWrite(pending: Option<seq<bv8>>, data: seq<bv8>, written: WriteResult): (r: Option<seq<bv8>>)
    requires |data| > 0 && written.Fits(|data|)
    ensures written.WriteFailed? ==> r == pending
    ensures written.Accepted? && written.count < |data| ==>
              r.Some? && data == data[..written.count] + r.value && |r.value| > 0
    ensures written == Accepted(|data|) || written.NoOutputStream? ==> r.None?
  {
    match written
    case WriteFailed => pending
    case NoOutputStream => None
    case Accepted(k) => if k != |data| then Some(data[k..]) else None
  }

  /** A message sent with the fixed types reaches the receiving delegate as the value it was made from. */
  lemma SentMessageIsReceived(json: DataManager.Json, compressor: Compressor,
                              data: DataManager.Value, formatted: seq<bv8>,
                              frame: seq<bv8>, chunks: seq<seq<bv8>>)
    requires json.encode(data) == Some(formatted)
    requires json.decode(compressor.read(compressor.write(formatted, SendCompressType), SendCompressType)) == Some(data)
    requires GetSendDataFrom(json, compressor, data) == Some(frame)
    requires HeaderSize < |frame| < DecodableBound
    requires Concat(chunks) == frame
    ensures var a := ReadAll([], 0, chunks);
            && a.rest == [] && a.awaited == 0
            && Deliveries(json, compressor, a.frames) == [Received(Some(data), |frame|)]
  {
    var body := compressor.write(formatted, SendCompressType);
    var f := Frame(SendDataType, SendEncodeType, SendCompressType, body);
    assert frame == f.Wire();
    assert WireOf([f]) == f.Wire() + [];
    assert AllTransmissible([f]);
    ChunkedDelivery([f], chunks);
  }

  /**
   * The receive pipeline undoes the send pipeline for JSON messages, with
   * any encodeType and compressType: given a serializer whose parser reads
   * its output back and a compressor whose read undoes its write, a body
   * built by `getDataWith` is disposed of as the value it was made from.
   */
  lemma PipelineRoundTrip(json: DataManager.Json, compressor: Compressor,
                          data: DataManager.Value, formatted: seq<bv8>,
                          encodeType: bv8, compressType: bv8)
    requires data.IsContainer()
    requires json.encode(data) == Some(formatted) && json.decode(formatted) == Some(data)
    requires forall x :: compressor.read(compressor.write(x, compressType), compressType) == x
    ensures GetDataWith(json, compressor, DataManager.JsonDataType, encodeType, compressType, data).Some?
    ensures var body := GetDataWith(json, compressor, DataManager.JsonDataType, encodeType, compressType, data).value;
            DisposedValue(json, compressor, Frame(DataManager.JsonDataType, encodeType, compressType, body)) == Some(data)
  {
    var encrypted := EncodeManager.Encoded(formatted, encodeType, EncodeKey);
    assert compressor.read(compressor.write(encrypted, compressType), compressType) == encrypted;
    EncodeManager.RoundTrip(formatted, encodeType, EncodeKey);
  }

  // ---------------------------------------------------------------------
  // The manager
  // ---------------------------------------------------------------------

  class SocketManager {
    /** JSONSerialization, as WGDataManager uses it. */
    const json: DataManager.Json
    /** WGCompressManager. */
    const compressor: Compressor

    /** Received bytes not yet parsed into frames. */
    var tempReadData: seq<bv8>
    /** Length of the frame being awaited; 0 while not yet read from a header. */
    var readDataLength: nat
    /** Length of the last data offered to the output stream, kept for the sent-bytes statistics. */
    var writeDataLength: nat
    /** The unwritten suffix of a partial write. */
    var tempWriteData: Option<seq<bv8>>
    /** Whether the output stream has reported space available since the last disconnect. */
    var connected: bool
    /** What the manager has done, in order. */
    var log: seq<Event>

    /** The invariant, except that the accumulator may still hold complete frames. */
    ghost predicate Consistent()
      reads this
    {
      && AwaitedConsistent(tempReadData, readDataLength)
      && (tempWriteData.Some? ==> |tempWriteData.value| > 0)
      && (!connected ==> tempWriteData.None?)
    }

    /**
     * The invariant between operations: the cached length is the one the
     * buffer announces, the accumulator holds no complete frame, a pending
     * write is never empty, and nothing is pending while disconnected.
     */
    ghost predicate Valid()
      reads this
    {
      Consistent() && Settled(tempReadData, readDataLength)
    }

    /** The state `disconnectToServer` leaves behind. */
    ghost predicate Reset()
      reads this
    {
      tempReadData == [] && readDataLength == 0 && tempWriteData.None? && !connected
    }

    constructor (json: DataManager.Json, compressor: Compressor)
      ensures Valid()
      ensures this.json == json && this.compressor == compressor
      ensures Reset() && writeDataLength == 0 && log == []
    {
      this.json := json;
      this.compressor := compressor;
      tempReadData := [];
      readDataLength := 0;
      writeDataLength := 0;
      tempWriteData := None;
      connected := false;
      log := [];
    }

    /**
     * `connectToServerWith(IP:andPort:)`: tears down any established
     * connection, then opens streams to the host unless the host is empty
     * or the port is 0.
     */
    method ConnectToServerWith(ip: string, port: int)
      requires Valid()
      requires |ip| == 0 || port == 0 || 0 < port < PortLimit
      modifies this
      ensures Valid()
      ensures old(connected) ==> Reset()
      ensures !old(connected) ==>
                tempReadData == old(tempReadData) && readDataLength == old(readDataLength)
                && tempWriteData == old(tempWriteData) && connected == old(connected)
      ensures writeDataLength == old(writeDataLength)
      ensures log == old(log) + (if old(connected) then [Closed] else [])
                              + (if |ip| == 0 || port == 0 then [] else [Opened(ip, port)])
    {
      DisconnectToServer();
      if |ip| == 0 || port == 0 {
        return;
      }
      log := log + [Opened(ip, port)];
    }

    /** `disconnectToServer()`: when connected, closes the streams and clears every buffer. */
    method DisconnectToServer()
      requires Valid()
      modifies this
      ensures Valid()
      ensures !old(connected) ==> unchanged(this)
      ensures old(connected) ==> Reset() && log == old(log) + [Closed] && writeDataLength == old(writeDataLength)
    {
      if !connected {
        return;
      }
      tempReadData := [];
      tempWriteData := None;
      readDataLength := 0;
      log := log + [Closed];
      connected := false;
    }

    /**
     * `sendDataToServerWith(data: Any)`: only while connected, and only
     * when the pipeline produced a frame, is that frame written.
     */
    method SendDataToServerWith(data: DataManager.Value, written: WriteResult)
      requires Valid()
      requires GetSendDataFrom(json, compressor, data).Some? ==>
                 written.Fits(|GetSendDataFrom(json, compressor, data).value|)
      modifies this
      ensures Valid()
      ensures !old(connected) || GetSendDataFrom(json, compressor, data).None? ==> unchanged(this)
      ensures old(connected) && GetSendDataFrom(json, compressor, data).Some? ==>
                var frame := GetSendDataFrom(json, compressor, data).value;
                && writeDataLength == |frame|
                && tempWriteData == PendingAfterWrite(old(tempWriteData), frame, written)
                && log == old(log) + WriteAttempt(frame, written)
      ensures connected == old(connected) && tempReadData == old(tempReadData)
      ensures readDataLength == old(readDataLength)
    {
      if !connected {
        return;
      }
      var sendData := GetSendDataFrom(json, compressor, data);
      if sendData.Some? {
        SendBytesToServerWith(sendData.value, written);
      }
    }

    /**
     * `sendDataToServerWith(data: Data)`: offers the bytes to the output
     * stream and keeps whatever it did not accept.
     */
    method SendBytesToServerWith(data: seq<bv8>, written: WriteResult)
      requires Valid() && connected
      requires written.Fits(|data|)
      modifies this
      ensures Valid()
      ensures |data| == 0 ==> unchanged(this)
      ensures |data| > 0 ==>
                && writeDataLength == |data|
                && tempWriteData == PendingAfterWrite(old(tempWriteData), data, written)
                && log == old(log) + WriteAttempt(data, written)
      ensures connected == old(connected) && tempReadData == old(tempReadData)
      ensures readDataLength == old(readDataLength)
    {
      if |data| == 0 {
        return;
      }
      writeDataLength := |data|;
      if !written.NoOutputStream? {
        log := log + [Wrote(data)];
      }
      if written.WriteFailed? {
        return;
      }
      if written.Accepted? && written.count != |data| {
        tempWriteData := Some(data[written.count..]);
      } else {
        tempWriteData := None;
      }
    }

    /**
     * `readData()`: the bytes one read returned (at most the scratch
     * buffer's size) are appended to the accumulator, which is then
     * analysed. A failed read, or no stream, changes nothing.
     */
    method ReadData(got: Option<seq<bv8>>)
      requires Valid()
      requires got.Some? ==> |got.value| <= ReadBufferSize
      modifies this
      ensures Valid()
      ensures got.None? ==> unchanged(this)
      ensures got.Some? ==>
                var a := Analyse(old(tempReadData) + got.value, old(readDataLength));
                && tempReadData == a.rest && readDataLength == a.awaited
                && log == old(log) + Deliveries(json, compressor, a.frames)
      ensures connected == old(connected) && tempWriteData == old(tempWriteData)
      ensures writeDataLength == old(writeDataLength)
    {
      if got.None? {
        return;
      }
      AppendKeepsAwaited(tempReadData, got.value, readDataLength);
      tempReadData := tempReadData + got.value;
      AnalyseData();
    }

    /**
     * `analyseData()`: delivers the complete frames at the front of the
     * accumulator and leaves the rest, with its announced length cached
     * once the header is in.
     */
    method AnalyseData()
      requires Consistent()
      modifies this
      decreases |tempReadData|, 1
      ensures Valid()
      ensures var a := Analyse(old(tempReadData), old(readDataLength));
              && tempReadData == a.rest && readDataLength == a.awaited
              && log == old(log) + Deliveries(json, compressor, a.frames)
      ensures connected == old(connected) && tempWriteData == old(tempWriteData)
      ensures writeDataLength == old(writeDataLength)
    {
      if |tempReadData| == 0 {
        return;
      }
      if |tempReadData| < LengthFieldSize {
        return;
      }
      if readDataLength == 0 {
        readDataLength := ConvertToIntFromByteArr(tempReadData[..LengthFieldSize]);
        CachingDecodedLength(tempReadData);
      }
      if |tempReadData| < readDataLength || readDataLength <= HeaderSize {
        return;
      }
      TakeFrame();
    }

    /**
     * The rest of `analyseData()` once the awaited frame is wholly
     * buffered: hand it to `disposeDataWith`, drop it from the
     * accumulator, and analyse whatever follows it.
     */
    method TakeFrame()
      requires Consistent() && readDataLength != 0
      requires HeaderSize < readDataLength <= |tempReadData|
      modifies this
      decreases |tempReadData|, 0
      ensures Valid()
      ensures var a := Analyse(old(tempReadData), old(readDataLength));
              && tempReadData == a.rest && readDataLength == a.awaited
              && log == old(log) + Deliveries(json, compressor, a.frames)
      ensures connected == old(connected) && tempWriteData == old(tempWriteData)
      ensures writeDataLength == old(writeDataLength)
    {
      var dataType, encodeType, compressType := tempReadData[4], tempReadData[5], tempReadData[6];
      var regularData := tempReadData[HeaderSize..readDataLength];
      DisposeDataWith(dataType, encodeType, compressType, regularData);
      if |tempReadData| > readDataLength {
        tempReadData := tempReadData[readDataLength..];
        readDataLength := 0;
        AnalyseData();
        FrameThenRestLog(json, compressor, old(tempReadData), old(readDataLength), old(log));
      } else {
        tempReadData := [];
        readDataLength := 0;
      }
    }

    /**
     * `disposeDataWith`: runs a frame's body through the receive pipeline
     * and reports the result with the frame length to the delegate.
     */
    method DisposeDataWith(dataType: bv8, encodeType: bv8, compressType: bv8, bodyData: seq<bv8>)
      modifies this`log
      ensures log == old(log) + [Received(DisposedValue(json, compressor, Frame(dataType, encodeType, compressType, bodyData)),
                                          readDataLength)]
    {
      var newBodyData := compressor.read(bodyData, compressType);
      newBodyData := EncodeManager.Read(newBodyData, encodeType, EncodeKey);
      var result := DataManager.Read(json, newBodyData, dataType);
      log := log + [Received(result, readDataLength)];
    }

    /**
     * `stream(_:handle:)` with `hasSpaceAvailable`: the first such event
     * after a disconnect marks the connection established and calls the
     * delegate; then a pending partial write is offered again, or else
     * the write statistics are reset.
     */
    method StreamHasSpaceAvailable(written: WriteResult)
      requires Valid()
      requires tempWriteData.Some? ==> written.Fits(|tempWriteData.value|)
      modifies this
      ensures Valid() && connected
      ensures !old(connected) ==> log == old(log) + [ConnectSucceeded] && tempWriteData.None?
      ensures old(tempWriteData).Some? ==>
                var pending := old(tempWriteData).value;
                && log == old(log) + WriteAttempt(pending, written)
                && tempWriteData == PendingAfterWrite(old(tempWriteData), pending, written)
                && writeDataLength == |pending|
      ensures old(tempWriteData).None? ==>
                && log == old(log) + (if old(connected) then [] else [ConnectSucceeded])
                && tempWriteData.None? && writeDataLength == 0
      ensures tempReadData == old(tempReadData) && readDataLength == old(readDataLength)
    {
      if !connected {
        connected := true;
        log := log + [ConnectSucceeded];
      }
      if tempWriteData.Some? {
        SendBytesToServerWith(tempWriteData.value, written);
      } else {
        writeDataLength := 0;
      }
    }

    /**
     * `stream(_:handle:)` with `errorOccurred` or `endEncountered`: the
     * connection is torn down and the delegate told that it failed.
     */
    method StreamFailed()
      requires Valid()
      modifies this
      ensures Valid() && !connected
      ensures old(connected) ==> Reset() && log == old(log) + [Closed, ConnectFailed]
      ensures !old(connected) ==>
                && log == old(log) + [ConnectFailed]
                && tempReadData == old(tempReadData) && readDataLength == old(readDataLength)
                && tempWriteData == old(tempWriteData)
      ensures writeDataLength == old(writeDataLength)
    {
      DisconnectToServer();
      log := log + [ConnectFailed];
    }
  }

  /**
   * `sendDataToServerWith(data: Any)` does not wait for a pending partial
   * write: a new frame is offered at once, and when the stream takes all
   * of it the unwritten tail of the earlier frame is dropped without ever
   * being written. The peer is left with a truncated frame followed by
   * the new one.
   */
  method NewSendDropsPendingTail(m: SocketManager, data: DataManager.Value, tail: seq<bv8>)
    requires m.Valid() && m.connected && m.tempWriteData == Some(tail)
    requires GetSendDataFrom(m.json, m.compressor, data).Some?
    modifies m
    ensures var frame := GetSendDataFrom(m.json, m.compressor, data).value;
            m.tempWriteData.None? && m.log == old(m.log) + [Wrote(frame)]
  {
    var frame := GetSendDataFrom(m.json, m.compressor, data).value;
    m.SendDataToServerWith(data, Accepted(|frame|));
  }
}
