/**
 * The wire format of WGSocketManager and the byte-level half of its
 * receive path, as values.
 *
 * A frame is a 7-byte header followed by a body. The header holds the
 * frame's total length (header included) as 4 bytes, most significant
 * first, then the dataType, encodeType and compressType bytes. The
 * receiver keeps an accumulator of unparsed bytes and the frame length
 * it is waiting for (0: not yet read). `Analyse` is what one call of
 * `analyseData` does to that pair: it delivers every complete frame at
 * the front of the accumulator and leaves the rest.
 */
module Framing {
  import opened LengthField

  /** Size of the fixed header: 4 length bytes and 3 type bytes. */
  const HeaderSize: nat := 7

  /** A frame as the receiver hands it on: the three type bytes and the body. */
  datatype Frame = Frame(dataType: bv8, encodeType: bv8, compressType: bv8, body: seq<bv8>)
  {
    /** The length the header announces: header plus body. */
    function TotalLength(): nat {
      |body| + HeaderSize
    }

    /** A frame the receiver can parse back: non-empty body, length below 2^16. */
    predicate Transmissible() {
      0 < |body| && TotalLength() < DecodableBound
    }

    /** The frame's bytes on the wire. */
    function Wire(): seq<bv8> {
      Wrap(body, dataType, encodeType, compressType)
    }
  }

  // ---------------------------------------------------------------------
  // Building frames (send side)
  // ---------------------------------------------------------------------

  /**
   * The framing step of `getSendDataFrom(originData:)`: the length
   * `body.count + 7` as 4 bytes, the three type bytes, then the body.
   */
  function Wrap(body: seq<bv8>, dataType: bv8, encodeType: bv8, compressType: bv8): (r: seq<bv8>)
    ensures |r| == |body| + HeaderSize
    ensures BigEndian(r[..LengthFieldSize]) == (|body| + HeaderSize) % 0x1_0000_0000
    ensures r[4] == dataType && r[5] == encodeType && r[6] == compressType
    ensures r[HeaderSize..] == body
  {
    var header := ConvertToByteFrom(|body| + HeaderSize) + [dataType, encodeType, compressType];
    assert (header + body)[..LengthFieldSize] == ConvertToByteFrom(|body| + HeaderSize);
    header + body
  }

  /** Sum of the lengths of a run of frames. */
  function SumLengths(fs: seq<Frame>): nat
  {
    if fs == [] then 0 else fs[0].TotalLength() + SumLengths(fs[1..])
  }

  /** Frames sent back to back, with no separator. */
  function WireOf(fs: seq<Frame>): (r: seq<bv8>)
    ensures |r| == SumLengths(fs)
  {
    if fs == [] then [] else fs[0].Wire() + WireOf(fs[1..])
  }

  /** The receiver reads back exactly the frame that was wrapped, when its length fits the decoder. */
  lemma WireHeader(f: Frame)
    requires f.TotalLength() < DecodableBound
    ensures ConvertToIntFromByteArr(f.Wire()[..LengthFieldSize]) == f.TotalLength()
    ensures Frame(f.Wire()[4], f.Wire()[5], f.Wire()[6], f.Wire()[HeaderSize..f.TotalLength()]) == f
  {
    var w := f.Wire();
    assert w[..LengthFieldSize] == ConvertToByteFrom(f.TotalLength());
    DecodeEncodeIff(f.TotalLength());
    assert w[HeaderSize..f.TotalLength()] == w[HeaderSize..];
  }

  // ---------------------------------------------------------------------
  // Extracting frames (receive side)
  // ---------------------------------------------------------------------

  /** The accumulator and cached length after one `analyseData`, with the frames it handed on. */
  datatype Analysis = Analysis(frames: seq<Frame>, rest: seq<bv8>, awaited: nat)

  /** A cached length is either 0 or what the first 4 buffered bytes announce. */
  predicate AwaitedConsistent(buf: seq<bv8>, awaited: nat)
  {
    awaited == 0 || (|buf| >= LengthFieldSize && awaited == ConvertToIntFromByteArr(buf[..LengthFieldSize]))
  }

  /** The frame length `analyseData` works with: the cached one, or the decoded header when none is cached. */
  function AwaitedLength(buf: seq<bv8>, awaited: nat): nat
    requires |buf| >= LengthFieldSize
  {
    if awaited == 0 then ConvertToIntFromByteArr(buf[..LengthFieldSize]) else awaited
  }

  /**
   * `analyseData()` on the accumulator `buf` and the cached length
   * `awaited`: the frames it delivers, in order, and the accumulator and
   * cached length it leaves behind.
   */
  function Analyse(buf: seq<bv8>, awaited: nat): (r: Analysis)
    decreases |buf|
    ensures AwaitedConsistent(buf, awaited) ==> AwaitedConsistent(r.rest, r.awaited)
  {
    if |buf| == 0 then Analysis([], buf, awaited)
    else if |buf| < LengthFieldSize then Analysis([], buf, awaited)
    else
      var len := AwaitedLength(buf, awaited);
      if |buf| < len || len <= HeaderSize then Analysis([], buf, len)
      else
        var frame := Frame(buf[4], buf[5], buf[6], buf[HeaderSize..len]);
        if |buf| > len then
          var next := Analyse(buf[len..], 0);
          Analysis([frame] + next.frames, next.rest, next.awaited)
        else
          Analysis([frame], [], 0)
  }

  /** What `analyseData` leaves in the accumulator is a suffix of what it was given. */
  predicate LeavesSuffix(buf: seq<bv8>, awaited: nat)
  {
    var r := Analyse(buf, awaited);
    |r.rest| <= |buf| && r.rest == buf[|buf| - |r.rest|..]
  }

  lemma SuffixAfterFrame(buf: seq<bv8>, awaited: nat)
    requires |buf| >= LengthFieldSize && HeaderSize < AwaitedLength(buf, awaited) <= |buf|
    requires LeavesSuffix(buf[AwaitedLength(buf, awaited)..], 0)
    ensures LeavesSuffix(buf, awaited)
  {
    var len := AwaitedLength(buf, awaited);
    var next := Analyse(buf[len..], 0);
    CompleteFrameDelivered(buf, awaited);
    DropOfDrop(buf, len, |buf[len..]| - |next.rest|);
  }

  /** Whatever `analyseData` delivers, the bytes it leaves behind are the tail of the accumulator. */
  lemma {:induction false} AnalyseLeavesSuffix(buf: seq<bv8>, awaited: nat)
    decreases |buf|
    ensures LeavesSuffix(buf, awaited)
  {
    if |buf| >= LengthFieldSize {
      var len := AwaitedLength(buf, awaited);
      if HeaderSize < len <= |buf| {
        AnalyseLeavesSuffix(buf[len..], 0);
        SuffixAfterFrame(buf, awaited);
      }
    }
  }

  lemma DropOfDrop(s: seq<bv8>, i: nat, j: nat)
    requires i <= |s| && j <= |s| - i
    ensures s[i..][j..] == s[i + j..]
  {
  }

  /** The delivered frames and the leftover bytes account for every byte of the accumulator. */
  lemma {:induction false} AnalyseAccountsForEveryByte(buf: seq<bv8>, awaited: nat)
    decreases |buf|
    ensures var r := Analyse(buf, awaited);
            SumLengths(r.frames) + |r.rest| == |buf|
  {
    if |buf| >= LengthFieldSize {
      var len := AwaitedLength(buf, awaited);
      if HeaderSize < len <= |buf| {
        var frame := Frame(buf[4], buf[5], buf[6], buf[HeaderSize..len]);
        var next := Analyse(buf[len..], 0);
        CompleteFrameDelivered(buf, awaited);
        AnalyseAccountsForEveryByte(buf[len..], 0);
        assert ([frame] + next.frames)[1..] == next.frames;
      }
    }
  }

  /** With fewer than 4 buffered bytes nothing is read, delivered or cached. */
  lemma ShortBufferChangesNothing(buf: seq<bv8>, awaited: nat)
    requires |buf| < LengthFieldSize
    ensures Analyse(buf, awaited) == Analysis([], buf, awaited)
  {
  }

  /**
   * A cached length is used as it is; only an empty cache is filled from
   * the header. While the frame is incomplete, or when the length is 7 or
   * less, nothing is consumed and the length stays cached.
   */
  lemma IncompleteFrameWaits(buf: seq<bv8>, awaited: nat)
    requires |buf| >= LengthFieldSize
    requires |buf| < AwaitedLength(buf, awaited) || AwaitedLength(buf, awaited) <= HeaderSize
    ensures Analyse(buf, awaited) == Analysis([], buf, AwaitedLength(buf, awaited))
  {
  }

  /**
   * A complete frame is handed on with the type bytes at offsets 4, 5, 6
   * and the body at 7 up to the announced length; the accumulator then
   * keeps exactly the bytes after it, which are analysed in turn.
   */
  lemma CompleteFrameDelivered(buf: seq<bv8>, awaited: nat)
    requires |buf| >= LengthFieldSize
    requires HeaderSize < AwaitedLength(buf, awaited) <= |buf|
    ensures var len := AwaitedLength(buf, awaited);
            var a := Analyse(buf, awaited);
            var next := Analyse(buf[len..], 0);
            a == Analysis([Frame(buf[4], buf[5], buf[6], buf[HeaderSize..len])] + next.frames,
                          next.rest, next.awaited)
    ensures Frame(buf[4], buf[5], buf[6], buf[HeaderSize..AwaitedLength(buf, awaited)]).TotalLength()
            == AwaitedLength(buf, awaited)
  {
    var len := AwaitedLength(buf, awaited);
    if |buf| == len {
      assert buf[len..] == [];
    }
  }

  /** A consistent cached length gives the same result as re-reading the header. */
  lemma CachedLengthIsHarmless(buf: seq<bv8>, awaited: nat)
    requires AwaitedConsistent(buf, awaited)
    ensures Analyse(buf, awaited) == Analyse(buf, 0)
  {
  }

  /** A buffer holding exactly one complete frame delivers it and is emptied. */
  lemma OnlyFrameDelivered(buf: seq<bv8>, awaited: nat)
    requires |buf| >= LengthFieldSize
    requires HeaderSize < AwaitedLength(buf, awaited) == |buf|
    ensures Analyse(buf, awaited) == Analysis([Frame(buf[4], buf[5], buf[6], buf[HeaderSize..])], [], 0)
  {
    assert buf[HeaderSize..|buf|] == buf[HeaderSize..];
  }

  /** Caching the decoded length before analysing changes nothing. */
  lemma CachingDecodedLength(buf: seq<bv8>)
    requires |buf| >= LengthFieldSize
    ensures Analyse(buf, ConvertToIntFromByteArr(buf[..LengthFieldSize])) == Analyse(buf, 0)
  {
  }

  /** Appending bytes never invalidates a cached length. */
  lemma AppendKeepsAwaited(buf: seq<bv8>, more: seq<bv8>, awaited: nat)
    requires AwaitedConsistent(buf, awaited)
    ensures AwaitedConsistent(buf + more, awaited)
  {
    if awaited != 0 {
      assert (buf + more)[..LengthFieldSize] == buf[..LengthFieldSize];
    }
  }

  /** The statement of `AnalyseAppend`, as a predicate to pass between its cases. */
  predicate AppendCommutes(p: seq<bv8>, q: seq<bv8>, awaited: nat)
  {
    var a := Analyse(p, awaited);
    var b := Analyse(a.rest + q, a.awaited);
    Analyse(p + q, awaited) == Analysis(a.frames + b.frames, b.rest, b.awaited)
  }

  lemma AppendWhileWaiting(p: seq<bv8>, q: seq<bv8>, awaited: nat)
    requires AwaitedConsistent(p, awaited)
    requires |p| >= LengthFieldSize
    requires |p| < AwaitedLength(p, awaited) || AwaitedLength(p, awaited) <= HeaderSize
    ensures AppendCommutes(p, q, awaited)
  {
    var len := AwaitedLength(p, awaited);
    IncompleteFrameWaits(p, awaited);
    assert (p + q)[..LengthFieldSize] == p[..LengthFieldSize];
    AppendKeepsAwaited(p, q, awaited);
    CachedLengthIsHarmless(p + q, awaited);
    AppendKeepsAwaited(p, q, len);
    CachedLengthIsHarmless(p + q, len);
    assert [] + Analyse(p + q, len).frames == Analyse(p + q, len).frames;
  }

  lemma DropOfAppend(p: seq<bv8>, q: seq<bv8>, k: nat)
    requires k <= |p|
    ensures (p + q)[k..] == p[k..] + q
  {
  }

  lemma BytesAssociate(x: seq<bv8>, y: seq<bv8>, z: seq<bv8>)
    ensures x + (y + z) == (x + y) + z
  {
  }

  lemma FramesAssociate(x: seq<Frame>, y: seq<Frame>, z: seq<Frame>)
    ensures x + (y + z) == (x + y) + z
  {
  }

  /** The first frame of `p` is also the first frame of `p + q`. */
  lemma SameFirstFrame(p: seq<bv8>, q: seq<bv8>, awaited: nat)
    requires |p| >= LengthFieldSize
    requires HeaderSize < AwaitedLength(p, awaited) <= |p|
    ensures AwaitedLength(p + q, awaited) == AwaitedLength(p, awaited)
    ensures var len := AwaitedLength(p, awaited);
            Frame((p + q)[4], (p + q)[5], (p + q)[6], (p + q)[HeaderSize..len])
            == Frame(p[4], p[5], p[6], p[HeaderSize..len])
  {
    assert (p + q)[..LengthFieldSize] == p[..LengthFieldSize];
    var len := AwaitedLength(p, awaited);
    assert (p + q)[HeaderSize..len] == p[HeaderSize..len];
  }

  lemma AppendAfterFrame(p: seq<bv8>, q: seq<bv8>, awaited: nat)
    requires |p| >= LengthFieldSize
    requires HeaderSize < AwaitedLength(p, awaited) <= |p|
    requires AppendCommutes(p[AwaitedLength(p, awaited)..], q, 0)
    ensures AppendCommutes(p, q, awaited)
  {
    var len := AwaitedLength(p, awaited);
    var frame := Frame(p[4], p[5], p[6], p[HeaderSize..len]);
    var n := Analyse(p[len..], 0);
    var b := Analyse(n.rest + q, n.awaited);
    var a := Analyse(p, awaited);
    assert a == Analysis([frame] + n.frames, n.rest, n.awaited) by {
      CompleteFrameDelivered(p, awaited);
    }
    assert Analyse(p + q, awaited) == Analysis([frame] + Analyse(p[len..] + q, 0).frames,
                                                  Analyse(p[len..] + q, 0).rest,
                                                  Analyse(p[len..] + q, 0).awaited) by {
      SameFirstFrame(p, q, awaited);
      CompleteFrameDelivered(p + q, awaited);
      DropOfAppend(p, q, len);
    }
    assert Analyse(p[len..] + q, 0) == Analysis(n.frames + b.frames, b.rest, b.awaited);
    FramesAssociate([frame], n.frames, b.frames);
  }

  /**
   * Analysing `p + q` at once is the same as analysing `p`, appending `q`
   * to what is left and analysing again: how the bytes are split across
   * reads does not change what is delivered, or in which order.
   */
  lemma {:induction false} AnalyseAppend(p: seq<bv8>, q: seq<bv8>, awaited: nat)
    requires AwaitedConsistent(p, awaited)
    ensures var a := Analyse(p, awaited);
            var b := Analyse(a.rest + q, a.awaited);
            Analyse(p + q, awaited) == Analysis(a.frames + b.frames, b.rest, b.awaited)
    decreases |p|
  {
    if |p| < LengthFieldSize {
      ShortBufferChangesNothing(p, awaited);
      assert [] + Analyse(p + q, awaited).frames == Analyse(p + q, awaited).frames;
    } else {
      var len := AwaitedLength(p, awaited);
      if |p| < len || len <= HeaderSize {
        AppendWhileWaiting(p, q, awaited);
      } else {
        AnalyseAppend(p[len..], q, 0);
        AppendAfterFrame(p, q, awaited);
      }
    }
  }

  /** All the chunks one after the other. */
  function Concat(chunks: seq<seq<bv8>>): seq<bv8>
  {
    if chunks == [] then [] else chunks[0] + Concat(chunks[1..])
  }

  lemma ConcatCons(buf: seq<bv8>, chunks: seq<seq<bv8>>)
    requires chunks != []
    ensures buf + Concat(chunks) == (buf + chunks[0]) + Concat(chunks[1..])
  {
  }

  /**
   * A series of reads: each chunk is appended to the accumulator and
   * `analyseData` runs; the frames are collected in delivery order.
   */
  function ReadAll(buf: seq<bv8>, awaited: nat, chunks: seq<seq<bv8>>): Analysis
    decreases |chunks|
  {
    if chunks == [] then Analysis([], buf, awaited)
    else
      var a := Analyse(buf + chunks[0], awaited);
      var b := ReadAll(a.rest, a.awaited, chunks[1..]);
      Analysis(a.frames + b.frames, b.rest, b.awaited)
  }

  /** What `analyseData` leaves behind is settled: running it again changes nothing. */
  lemma {:induction false} AnalyseSettles(buf: seq<bv8>, awaited: nat)
    requires AwaitedConsistent(buf, awaited)
    ensures var a := Analyse(buf, awaited);
            Analyse(a.rest, a.awaited) == Analysis([], a.rest, a.awaited)
    decreases |buf|
  {
    if |buf| >= LengthFieldSize {
      var len := AwaitedLength(buf, awaited);
      if HeaderSize < len <= |buf| && |buf| > len {
        AnalyseSettles(buf[len..], 0);
      }
    }
  }

  /**
   * The accumulator holds no complete frame and its length, if known, is
   * cached: the state `analyseData` leaves behind, stated without Analyse.
   */
  predicate Settled(buf: seq<bv8>, awaited: nat)
  {
    |buf| < LengthFieldSize
    || (awaited == AwaitedLength(buf, awaited) && (|buf| < awaited || awaited <= HeaderSize))
  }

  /** A consistent accumulator is settled exactly when analysing it changes nothing. */
  lemma SettledIsFixpoint(buf: seq<bv8>, awaited: nat)
    requires AwaitedConsistent(buf, awaited)
    ensures Settled(buf, awaited) <==> Analyse(buf, awaited) == Analysis([], buf, awaited)
  {
    if |buf| >= LengthFieldSize && HeaderSize < AwaitedLength(buf, awaited) <= |buf| {
      CompleteFrameDelivered(buf, awaited);
    }
  }

  /**
   * Starting from a settled accumulator, any series of reads delivers
   * what one read of all their bytes would.
   */
  lemma {:induction false} ReadAllIsAnalyse(buf: seq<bv8>, awaited: nat, chunks: seq<seq<bv8>>)
    requires AwaitedConsistent(buf, awaited)
    requires Analyse(buf, awaited) == Analysis([], buf, awaited)
    ensures ReadAll(buf, awaited, chunks) == Analyse(buf + Concat(chunks), awaited)
    decreases |chunks|
  {
    if chunks == [] {
      assert buf + Concat(chunks) == buf;
    } else {
      var first := buf + chunks[0];
      var a := Analyse(first, awaited);
      var b := ReadAll(a.rest, a.awaited, chunks[1..]);
      assert b == Analyse(a.rest + Concat(chunks[1..]), a.awaited) by {
        AppendKeepsAwaited(buf, chunks[0], awaited);
        AnalyseSettles(first, awaited);
        ReadAllIsAnalyse(a.rest, a.awaited, chunks[1..]);
      }
      assert Analyse(first + Concat(chunks[1..]), awaited) == Analysis(a.frames + b.frames, b.rest, b.awaited) by {
        AppendKeepsAwaited(buf, chunks[0], awaited);
        AnalyseAppend(first, Concat(chunks[1..]), awaited);
      }
      ConcatCons(buf, chunks);
    }
  }

  // ---------------------------------------------------------------------
  // Streams of well-formed frames
  // ---------------------------------------------------------------------

  /** Every frame of the run can be parsed back. */
  predicate AllTransmissible(fs: seq<Frame>)
  {
    forall i :: 0 <= i < |fs| ==> fs[i].Transmissible()
  }

  lemma TakeCons(fs: seq<Frame>, k: nat)
    requires 0 < k <= |fs|
    ensures fs[..k] == [fs[0]] + fs[1..][..k - 1]
    ensures SumLengths(fs[..k]) == fs[0].TotalLength() + SumLengths(fs[1..][..k - 1])
    ensures WireOf(fs[..k]) == fs[0].Wire() + WireOf(fs[1..][..k - 1])
  {
    assert fs[..k] == [fs[0]] + fs[1..][..k - 1];
    assert fs[..k][1..] == fs[1..][..k - 1];
  }

  lemma CountStep(fs: seq<Frame>, k: nat)
    requires k < |fs|
    ensures SumLengths(fs[..k + 1]) == fs[0].TotalLength() + SumLengths(fs[1..][..k])
    ensures k + 1 < |fs| ==> SumLengths(fs[..k + 2]) == fs[0].TotalLength() + SumLengths(fs[1..][..k + 1])
  {
    TakeCons(fs, k + 1);
    if k + 1 < |fs| {
      TakeCons(fs, k + 2);
    }
  }

  /**
   * How many of the frames lie entirely within the first n bytes of
   * their stream: the largest k whose frames together fit in n bytes.
   */
  function CompleteCount(fs: seq<Frame>, n: nat): (k: nat)
    ensures k <= |fs|
    ensures SumLengths(fs[..k]) <= n
    ensures k < |fs| ==> n < SumLengths(fs[..k + 1])
  {
    if fs == [] || n < fs[0].TotalLength() then
      assert fs != [] ==> fs[..1] == [fs[0]] && SumLengths(fs[..1][1..]) == 0;
      0
    else
      var k' := CompleteCount(fs[1..], n - fs[0].TotalLength());
      CountStep(fs, k');
      k' + 1
  }

  /** The statement of `PrefixDelivery`, as a predicate to pass between its cases. */
  predicate DeliversCompleteFrames(fs: seq<Frame>, p: seq<bv8>)
  {
    var k := CompleteCount(fs, |p|);
    var a := Analyse(p, 0);
    a.frames == fs[..k] && p == WireOf(fs[..k]) + a.rest
  }

  lemma SplitAfter(p: seq<bv8>, w: seq<bv8>, s: seq<bv8>)
    requires p <= w + s && |w| <= |p|
    ensures p == w + p[|w|..] && p[|w|..] <= s
  {
  }

  /** While a well-formed frame is still arriving, nothing is handed on and nothing consumed. */
  lemma WaitingForFrame(f: Frame, p: seq<bv8>, s: seq<bv8>)
    requires f.Transmissible()
    requires p <= f.Wire() + s && |p| < f.TotalLength()
    ensures Analyse(p, 0).frames == [] && Analyse(p, 0).rest == p
  {
    var w := f.Wire();
    if |p| < LengthFieldSize {
      ShortBufferChangesNothing(p, 0);
    } else {
      assert p[..LengthFieldSize] == w[..LengthFieldSize];
      WireHeader(f);
      IncompleteFrameWaits(p, 0);
    }
  }

  /** Case of `PrefixDelivery`: the first frame has not fully arrived. */
  lemma PrefixWithinFirstFrame(fs: seq<Frame>, p: seq<bv8>)
    requires fs != [] && fs[0].Transmissible()
    requires p <= fs[0].Wire() + WireOf(fs[1..]) && |p| < fs[0].TotalLength()
    ensures DeliversCompleteFrames(fs, p)
  {
    assert CompleteCount(fs, |p|) == 0 && fs[..0] == [] && WireOf(fs[..0]) == [];
    WaitingForFrame(fs[0], p, WireOf(fs[1..]));
  }

  /** A buffer that starts with a well-formed frame announces that frame's length and carries its fields. */
  lemma FrameAtFront(f: Frame, p: seq<bv8>)
    requires f.Transmissible()
    requires |p| >= f.TotalLength() && p[..f.TotalLength()] == f.Wire()
    ensures AwaitedLength(p, 0) == f.TotalLength()
    ensures Frame(p[4], p[5], p[6], p[HeaderSize..f.TotalLength()]) == f
  {
    var w := f.Wire();
    var len := f.TotalLength();
    assert p[..LengthFieldSize] == w[..LengthFieldSize];
    assert p[4] == w[4] && p[5] == w[5] && p[6] == w[6];
    assert p[HeaderSize..len] == w[HeaderSize..len];
    WireHeader(f);
  }

  /** The first frame of a stream is handed on once all its bytes are in. */
  lemma FirstFrameDelivered(fs: seq<Frame>, p: seq<bv8>)
    requires fs != [] && fs[0].Transmissible()
    requires p <= fs[0].Wire() + WireOf(fs[1..]) && |p| >= fs[0].TotalLength()
    ensures var a' := Analyse(p[fs[0].TotalLength()..], 0);
            Analyse(p, 0) == Analysis([fs[0]] + a'.frames, a'.rest, a'.awaited)
  {
    assert p[..fs[0].TotalLength()] == fs[0].Wire() by {
      SplitAfter(p, fs[0].Wire(), WireOf(fs[1..]));
    }
    FrameAtFront(fs[0], p);
    CompleteFrameDelivered(p, 0);
  }

  /** Case of `PrefixDelivery`: the first frame is complete; the rest is the induction hypothesis. */
  lemma PrefixPastFirstFrame(fs: seq<Frame>, p: seq<bv8>)
    requires fs != [] && fs[0].Transmissible()
    requires p <= fs[0].Wire() + WireOf(fs[1..]) && |p| >= fs[0].TotalLength()
    requires DeliversCompleteFrames(fs[1..], p[fs[0].TotalLength()..])
    ensures DeliversCompleteFrames(fs, p)
  {
    var f := fs[0];
    var w := f.Wire();
    var rest := p[f.TotalLength()..];
    var a' := Analyse(rest, 0);
    FirstFrameDelivered(fs, p);
    var k' := CompleteCount(fs[1..], |rest|);
    var k := CompleteCount(fs, |p|);
    assert k == k' + 1;
    TakeCons(fs, k);
    var a := Analyse(p, 0);
    assert a.frames == fs[..k];
    assert p == w + rest by {
      SplitAfter(p, w, WireOf(fs[1..]));
    }
    assert rest == WireOf(fs[1..][..k']) + a'.rest;
    BytesAssociate(w, WireOf(fs[1..][..k']), a'.rest);
  }

  /**
   * After the first bytes `p` of a stream of well-formed frames have been
   * read, exactly the frames lying entirely within `p` have been handed
   * on, in the order they were sent, and the accumulator holds the bytes
   * of the next, still incomplete frame.
   */
  lemma {:induction false} PrefixDelivery(fs: seq<Frame>, p: seq<bv8>)
    requires AllTransmissible(fs)
    requires p <= WireOf(fs)
    ensures var k := CompleteCount(fs, |p|);
            var a := Analyse(p, 0);
            a.frames == fs[..k] && p == WireOf(fs[..k]) + a.rest
    decreases |fs|
  {
    if fs == [] {
      assert p == [] && fs[..0] == [];
    } else {
      assert fs[0].Transmissible();
      if |p| < fs[0].TotalLength() {
        PrefixWithinFirstFrame(fs, p);
      } else {
        var w := fs[0].Wire();
        assert p[|w|..] <= WireOf(fs[1..]) by {
          SplitAfter(p, w, WireOf(fs[1..]));
        }
        PrefixDelivery(fs[1..], p[|w|..]);
        PrefixPastFirstFrame(fs, p);
      }
    }
  }

  lemma {:induction false} CompleteCountAll(fs: seq<Frame>)
    ensures CompleteCount(fs, SumLengths(fs)) == |fs|
    decreases |fs|
  {
    if fs != [] {
      CompleteCountAll(fs[1..]);
    }
  }

  /** A stream of well-formed frames read in one piece yields exactly those frames, in order, and an empty accumulator. */
  lemma WireRoundTrip(fs: seq<Frame>)
    requires AllTransmissible(fs)
    ensures Analyse(WireOf(fs), 0) == Analysis(fs, [], 0)
  {
    var w := WireOf(fs);
    PrefixDelivery(fs, w);
    CompleteCountAll(fs);
    assert fs[..|fs|] == fs;
    var a := Analyse(w, 0);
    assert |a.rest| == 0;
  }

  /**
   * However a stream of well-formed frames is cut into reads, the reads
   * together deliver exactly its frames, in order, and leave the
   * accumulator empty with no length cached.
   */
  lemma ChunkedDelivery(fs: seq<Frame>, chunks: seq<seq<bv8>>)
    requires AllTransmissible(fs)
    requires Concat(chunks) == WireOf(fs)
    ensures ReadAll([], 0, chunks) == Analysis(fs, [], 0)
  {
    ReadAllIsAnalyse([], 0, chunks);
    assert [] + Concat(chunks) == WireOf(fs);
    WireRoundTrip(fs);
  }

  /** No part of a frame is handed on before its last byte has arrived. */
  lemma PartialFrameWaits(f: Frame, p: seq<bv8>)
    requires f.Transmissible()
    requires p <= f.Wire() && |p| < |f.Wire()|
    ensures Analyse(p, 0).frames == [] && Analyse(p, 0).rest == p
  {
    assert f.Wire() + [] == f.Wire();
    WaitingForFrame(f, p, []);
  }

  /**
   * A header announcing 7 bytes or fewer blocks the connection: whatever
   * arrives after it, nothing is delivered and the accumulator only grows.
   */
  lemma ShortLengthStallsForever(p: seq<bv8>, q: seq<bv8>)
    requires |p| >= LengthFieldSize
    requires ConvertToIntFromByteArr(p[..LengthFieldSize]) <= HeaderSize
    ensures Analyse(p + q, 0) == Analysis([], p + q, ConvertToIntFromByteArr(p[..LengthFieldSize]))
  {
    assert (p + q)[..LengthFieldSize] == p[..LengthFieldSize];
    IncompleteFrameWaits(p + q, 0);
  }

  /** A frame of 2^16 bytes or more is never read back as itself. */
  lemma OversizedFrameMisread(f: Frame)
    requires f.TotalLength() >= DecodableBound
    ensures Analyse(f.Wire(), 0).frames != [f]
  {
    var w := f.Wire();
    var len := AwaitedLength(w, 0);
    DecoderAgreesWithBigEndianIff(w[..LengthFieldSize]);
    if len <= HeaderSize {
      IncompleteFrameWaits(w, 0);
    } else {
      CompleteFrameDelivered(w, 0);
      var first := Frame(w[4], w[5], w[6], w[HeaderSize..len]);
      assert |first.body| < |f.body|;
      assert Analyse(w, 0).frames[0] == first;
    }
  }
}
