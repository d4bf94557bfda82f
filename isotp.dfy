/**
 * ISO-TP (ISO 15765-2) segmentation and reassembly, as the ISOTP class
 * implements it: payloads of up to 7 bytes travel in one single frame, longer
 * ones in a first frame carrying a 12-bit length and six bytes, followed by
 * consecutive frames of seven bytes with a 4-bit sequence number.  Frames are
 * exchanged as hex text of 8 bytes each.
 */
module IsoTp {
  import opened Wrappers
  import opened Bits
  import opened Hex

  // Protocol control information: the high nibble of byte 0.
  const SingleType := 0x00
  const FirstType := 0x10
  const ConsecutiveType := 0x20
  const FlowControlType := 0x30

  // Flow status values.
  const FlowContinue := 0x00
  const FlowWait := 0x01
  const FlowOverflow := 0x02

  /** The largest length the 12-bit first-frame field can declare. */
  const MaxDataLength := 4095

  /** One frame as `encode` returns it: the hex text of its 8 bytes plus bookkeeping. */
  datatype Frame =
    | Single(canId: int, data: string)
    | First(canId: int, data: string, totalLength: nat)
    | Consecutive(canId: int, data: string, sequenceNumber: nat)

  function Min(a: int, b: int): int
  {
    if a <= b then a else b
  }

  /** `Array(n).fill(0x00)`. */
  function Zeros(n: nat): (z: seq<int>)
    ensures |z| == n && IsBytes(z)
    ensures forall i :: 0 <= i < n ==> z[i] == 0
  {
    seq(n, _ => 0)
  }

  /** The single frame: `SINGLE | length`, the payload, zero padding. */
  function SingleFrameBytes(p: seq<int>): (b: seq<int>)
    requires IsBytes(p) && |p| <= 7
    ensures |b| == 8 && IsBytes(b)
  {
    [SingleType + |p|] + p + Zeros(7 - |p|)
  }

  /** The first frame: type nibble 1 with length bits 8..11, length bits 0..7, six payload bytes. */
  function FirstFrameBytes(p: seq<int>): (b: seq<int>)
    requires IsBytes(p) && |p| > 7
    ensures |b| == 8 && IsBytes(b)
  {
    [FirstType + (|p| / 256) % 16, |p| % 256] + p[..6]
  }

  /** `dataBytes.slice(offset, offset + 7)`. */
  function Chunk(p: seq<int>, offset: nat): (c: seq<int>)
    requires offset <= |p|
    ensures |c| <= 7
  {
    p[offset..Min(offset + 7, |p|)]
  }

  /** A consecutive frame: type nibble 2 with the sequence number, the chunk, zero padding. */
  function ConsecutiveFrameBytes(p: seq<int>, offset: nat, sn: nat): (b: seq<int>)
    requires IsBytes(p) && offset <= |p|
    ensures |b| == 8 && IsBytes(b)
  {
    [ConsecutiveType + sn % 16] + Chunk(p, offset) + Zeros(7 - |Chunk(p, offset)|)
  }

  /** The consecutive frame for the chunk at `offset`. */
  function ConsecutiveFrame(p: seq<int>, canId: int, offset: nat, sn: nat): Frame
    requires IsBytes(p) && offset <= |p|
  {
    Consecutive(canId, BytesToHex(ConsecutiveFrameBytes(p, offset, sn)), sn)
  }

  /**
   * The consecutive frames from `offset` on; each step advances the offset by
   * seven and the sequence number by one modulo 16.
   */
  function ConsecutiveFrames(p: seq<int>, canId: int, offset: nat, sn: nat): seq<Frame>
    requires IsBytes(p)
    decreases |p| - offset
  {
    if offset >= |p| then []
    else
      [ConsecutiveFrame(p, canId, offset, sn)] + ConsecutiveFrames(p, canId, offset + 7, (sn + 1) % 16)
  }

  /** The frames `encode` emits for a payload. */
  function EncodeFrames(p: seq<int>, canId: int): seq<Frame>
    requires IsBytes(p)
  {
    if |p| <= 7 then [Single(canId, BytesToHex(SingleFrameBytes(p)))]
    else [First(canId, BytesToHex(FirstFrameBytes(p)), |p|)] + ConsecutiveFrames(p, canId, 6, 1)
  }

  /**
   * `encode(data, canId)`: parse the hex payload, then push the single frame,
   * or the first frame followed by a loop that pushes consecutive frames while
   * `offset` is inside the payload.  The length is not checked against
   * `MaxDataLength`.
   */
  method Encode(data: string, canId: int) returns (frames: seq<Frame>)
    requires IsHex(data)
    ensures frames == EncodeFrames(HexToBytes(data), canId)
  {
    var dataBytes := ParseHex(data);
    frames := [];
    if |dataBytes| <= 7 {
      var frame := [SingleType + |dataBytes|] + dataBytes + Zeros(7 - |dataBytes|);
      frames := frames + [Single(canId, BytesToHex(frame))];
      assert frames == EncodeFrames(dataBytes, canId) by {
        assert frame == SingleFrameBytes(dataBytes);
      }
    } else {
      var firstFrameData := dataBytes[..6];
      var dataLength := |dataBytes|;
      var firstFrame := [FirstType + (dataLength / 256) % 16, dataLength % 256] + firstFrameData;
      assert firstFrame == FirstFrameBytes(dataBytes);
      frames := frames + [First(canId, BytesToHex(firstFrame), dataLength)];
      var sequenceNumber := 1;
      var offset := 6;
      ghost var target := EncodeFrames(dataBytes, canId);
      while offset < |dataBytes|
        invariant 6 <= offset && 0 <= sequenceNumber < 16
        invariant frames + ConsecutiveFrames(dataBytes, canId, offset, sequenceNumber) == target
        decreases |dataBytes| - offset
      {
        var chunk := dataBytes[offset..Min(offset + 7, |dataBytes|)];
        var consecutiveFrame := [ConsecutiveType + sequenceNumber % 16] + chunk + Zeros(7 - |chunk|);
        var frame := Consecutive(canId, BytesToHex(consecutiveFrame), sequenceNumber);
        ghost var rest := ConsecutiveFrames(dataBytes, canId, offset + 7, (sequenceNumber + 1) % 16);
        assert ConsecutiveFrames(dataBytes, canId, offset, sequenceNumber) == [frame] + rest by {
          assert consecutiveFrame == ConsecutiveFrameBytes(dataBytes, offset, sequenceNumber);
        }
        StepAppend(frames, [frame], rest, ConsecutiveFrames(dataBytes, canId, offset, sequenceNumber), target);
        frames := frames + [frame];
        sequenceNumber := (sequenceNumber + 1) % 16;
        offset := offset + 7;
      }
    }
  }

  /** The `data` strings of a frame list, as a receiver would pass them to `decode`. */
  function Datas(frames: seq<Frame>): (ds: seq<string>)
    ensures |ds| == |frames|
    ensures forall i :: 0 <= i < |frames| ==> ds[i] == frames[i].data
  {
    seq(|frames|, i requires 0 <= i < |frames| => frames[i].data)
  }

  predicate AllHex(frames: seq<string>)
  {
    forall i :: 0 <= i < |frames| ==> IsHex(frames[i])
  }

  predicate AllBytes(frames: seq<seq<int>>)
  {
    forall i :: 0 <= i < |frames| ==> IsBytes(frames[i])
  }

  /** Every frame text through `hexToBytes`, as `decode` parses each frame it reads. */
  function ParseFrames(frames: seq<string>): (bs: seq<seq<int>>)
    requires AllHex(frames)
    ensures |bs| == |frames| && AllBytes(bs)
    ensures forall i :: 0 <= i < |frames| ==> bs[i] == HexToBytes(frames[i])
  {
    seq(|frames|, i requires 0 <= i < |frames| => HexToBytes(frames[i]))
  }

  /**
   * `b[i]` where a missing element (`undefined`) is read as 0, as the bitwise
   * operators `>>`, `&` and `|` read it.
   */
  function At(b: seq<int>, i: nat): int
  {
    if i < |b| then b[i] else 0
  }

  /** `(b[0] >> 4) & 0x0F`: the frame type nibble. */
  function FrameType(b: seq<int>): int
    requires IsBytes(b)
  {
    At(b, 0) / 16
  }

  /** The length a first frame declares: `((b[0] & 0x0F) << 8) | b[1]`. */
  function DeclaredLength(b: seq<int>): int
    requires IsBytes(b)
  {
    (At(b, 0) % 16) * 256 + At(b, 1)
  }

  /** `b.slice(from)`, which is empty when `from` is past the end. */
  function Drop(b: seq<int>, from: nat): seq<int>
  {
    b[Min(from, |b|)..]
  }

  /** `b.slice(0, n)`, which stops at the end. */
  function Take(b: seq<int>, n: int): seq<int>
    requires n >= 0
  {
    b[..Min(n, |b|)]
  }

  /** What a frame after the first contributes: its bytes after byte 0 when its type is 2, else nothing. */
  function FramePayload(b: seq<int>): (d: seq<int>)
    requires IsBytes(b)
    ensures IsBytes(d)
  {
    if FrameType(b) == 2 then b[1..] else []
  }

  /** The payloads of the frames, in input order. */
  function ConsecutiveData(frames: seq<seq<int>>): (d: seq<int>)
    requires AllBytes(frames)
    ensures IsBytes(d)
  {
    if frames == [] then [] else FramePayload(frames[0]) + ConsecutiveData(frames[1..])
  }

  /**
   * The bytes `decode` renders for a list of parsed frames, `None` where it
   * returns `null`: a single frame gives its declared prefix, a first frame
   * its own bytes after the length followed by the payloads of the later
   * frames, cut to the declared length.
   */
  function Reassemble(frames: seq<seq<int>>): (r: Option<seq<int>>)
    requires AllBytes(frames)
  {
    if frames == [] then None
    else
      var first := frames[0];
      if FrameType(first) == 0 then Some(first[Min(1, |first|)..Min(1 + At(first, 0) % 16, |first|)])
      else if FrameType(first) == 1 then Some(Take(Drop(first, 2) + ConsecutiveData(frames[1..]), DeclaredLength(first)))
      else None
  }

  /** The reassembled bytes are bytes. */
  lemma ReassembledBytes(frames: seq<seq<int>>)
    requires AllBytes(frames) && Reassemble(frames).Some?
    ensures IsBytes(Reassemble(frames).value)
  {
    assert IsBytes(frames[0]);
  }

  /** What `decode` returns for a list of frame texts; `None` is `null`. */
  function DecodeFrames(frames: seq<string>): Option<string>
    requires AllHex(frames)
  {
    var parsed := ParseFrames(frames);
    if Reassemble(parsed).None? then None
    else
      ReassembledBytes(parsed);
      Some(BytesToHex(Reassemble(parsed).value))
  }

  /**
   * `decode(frames)`: a single frame yields its declared prefix; a first frame
   * starts a buffer that a loop extends with the bytes of every later frame of
   * type 2, in input order, before cutting it to the declared length.
   */
  method Decode(frames: seq<string>) returns (r: Option<string>)
    requires AllHex(frames)
    ensures r == DecodeFrames(frames)
  {
    ghost var parsed := ParseFrames(frames);
    if |frames| == 0 {
      return None;
    }
    var firstFrame := ParseHex(frames[0]);
    assert firstFrame == parsed[0];
    var frameType := At(firstFrame, 0) / 16;
    if frameType == 0 {
      var length := At(firstFrame, 0) % 16;
      return Some(BytesToHex(firstFrame[Min(1, |firstFrame|)..Min(1 + length, |firstFrame|)]));
    }
    if frameType == 1 {
      r := DecodeMultiFrame(frames, firstFrame);
      return;
    }
    return None;
  }

  /** One more frame after the ones already collected contributes its payload at the end. */
  lemma ConsecutiveDataSnoc(fs: seq<seq<int>>, x: seq<int>)
    requires AllBytes(fs) && IsBytes(x)
    ensures AllBytes(fs + [x])
    ensures ConsecutiveData(fs + [x]) == ConsecutiveData(fs) + FramePayload(x)
  {
    assert ConsecutiveData([x]) == FramePayload(x) by {
      assert [x][1..] == [];
    }
    ConsecutiveDataAppend(fs, [x]);
  }

  /** A slice extended by the element after it. */
  lemma SliceExtend<T>(s: seq<T>, lo: nat, i: nat)
    requires lo <= i < |s|
    ensures s[lo..i] + [s[i]] == s[lo..i + 1]
  {
  }

  /** One turn of the collecting loop: the next frame's payload joins the buffer. */
  lemma CollectStep(fs: seq<seq<int>>, x: seq<int>, head: seq<int>, before: seq<int>, after: seq<int>)
    requires AllBytes(fs) && IsBytes(x)
    requires before == head + ConsecutiveData(fs)
    requires after == before + FramePayload(x)
    ensures AllBytes(fs + [x])
    ensures after == head + ConsecutiveData(fs + [x])
  {
    ConsecutiveDataSnoc(fs, x);
  }

  /** The first-frame branch of `decode`: collect the payloads of the consecutive frames, then cut to the declared length. */
  method DecodeMultiFrame(frames: seq<string>, firstFrame: seq<int>) returns (r: Option<string>)
    requires AllHex(frames) && frames != []
    requires firstFrame == HexToBytes(frames[0]) && At(firstFrame, 0) / 16 == 1
    ensures r == DecodeFrames(frames)
  {
    var dataLength := (At(firstFrame, 0) % 16) * 256 + At(firstFrame, 1);
    var data := CollectPayloads(frames, firstFrame);
    assert data[..Min(dataLength, |data|)] == Reassemble(ParseFrames(frames)).value;
    r := Some(BytesToHex(data[..Min(dataLength, |data|)]));
  }

  /** The loop of `decode`'s first-frame branch: the first frame's bytes after the length, then every type-2 payload. */
  method CollectPayloads(frames: seq<string>, firstFrame: seq<int>) returns (data: seq<int>)
    requires AllHex(frames) && frames != [] && firstFrame == HexToBytes(frames[0])
    ensures AllBytes(ParseFrames(frames)[1..])
    ensures data == Drop(firstFrame, 2) + ConsecutiveData(ParseFrames(frames)[1..])
  {
    ghost var parsed := ParseFrames(frames);
    data := firstFrame[Min(2, |firstFrame|)..];
    for i := 1 to |frames|
      invariant data == Drop(firstFrame, 2) + ConsecutiveData(parsed[1..i])
    {
      var frame := ParseHex(frames[i]);
      assert frame == parsed[i];
      ghost var before := data;
      if At(frame, 0) / 16 == 2 {
        data := data + frame[1..];
      }
      assert data == before + FramePayload(parsed[i]);
      CollectStep(parsed[1..i], parsed[i], Drop(firstFrame, 2), before, data);
      SliceExtend(parsed, 1, i);
    }
    assert parsed[1..|frames|] == parsed[1..];
  }

  // ---------------------------------------------------------------------------
  // Frame shapes

  /** `ceil(a / b)` for `b > 0`. */
  function CeilDiv(a: nat, b: nat): nat
    requires b > 0
  {
    (a + b - 1) / b
  }

  /** The number of consecutive frames from `offset` on: one per started block of seven bytes. */
  lemma {:induction false} ConsecutiveFramesCount(p: seq<int>, canId: int, offset: nat, sn: nat)
    requires IsBytes(p)
    ensures |ConsecutiveFrames(p, canId, offset, sn)| == if offset >= |p| then 0 else CeilDiv(|p| - offset, 7)
    decreases |p| - offset
  {
    if offset < |p| {
      ConsecutiveFramesCount(p, canId, offset + 7, (sn + 1) % 16);
    }
  }

  /** Frame `j` from `offset` on covers the bytes at `offset + 7 j` and carries sequence number `sn + j` modulo 16. */
  lemma {:induction false} ConsecutiveFrameAt(p: seq<int>, canId: int, offset: nat, sn: nat, j: nat)
    requires IsBytes(p) && sn < 16 && j < |ConsecutiveFrames(p, canId, offset, sn)|
    ensures offset + 7 * j < |p|
    ensures ConsecutiveFrames(p, canId, offset, sn)[j] == ConsecutiveFrame(p, canId, offset + 7 * j, (sn + j) % 16)
    decreases j
  {
    var frames := ConsecutiveFrames(p, canId, offset, sn);
    assert offset < |p|;
    var rest := ConsecutiveFrames(p, canId, offset + 7, (sn + 1) % 16);
    assert frames == [ConsecutiveFrame(p, canId, offset, sn)] + rest;
    if j > 0 {
      ConsecutiveFrameAt(p, canId, offset + 7, (sn + 1) % 16, j - 1);
      assert frames[j] == rest[j - 1];
      assert offset + 7 + 7 * (j - 1) == offset + 7 * j;
      SequenceStep(sn, j - 1);
    } else {
      assert (sn + j) % 16 == sn;
    }
  }

  /** Advancing a 4-bit sequence number once and then `j` more times is advancing it `j + 1` times. */
  lemma SequenceStep(sn: nat, j: nat)
    requires sn < 16
    ensures ((sn + 1) % 16 + j) % 16 == (sn + j + 1) % 16
  {
    if sn == 15 {
      DivModUnique(sn + j + 1, 16, (j / 16) + 1, j % 16);
    }
  }

  /**
   * A payload of at most seven bytes is one frame; a longer payload of `n`
   * bytes is a first frame followed by `ceil((n - 6) / 7)` consecutive frames.
   */
  lemma FrameCount(p: seq<int>, canId: int)
    requires IsBytes(p)
    ensures |EncodeFrames(p, canId)| == if |p| <= 7 then 1 else 1 + CeilDiv(|p| - 6, 7)
  {
    if |p| > 7 {
      ConsecutiveFramesCount(p, canId, 6, 1);
    }
  }

  /** The frame `encode` emits for a payload of at most seven bytes: byte 0 is the length, then the payload, then zeros. */
  lemma SingleFrameShape(p: seq<int>, canId: int)
    requires IsBytes(p) && |p| <= 7
    ensures |EncodeFrames(p, canId)| == 1 && EncodeFrames(p, canId)[0].Single?
    ensures var b := HexToBytes(EncodeFrames(p, canId)[0].data);
      |b| == 8 && b[0] == |p| && b[1..1 + |p|] == p && forall i :: 1 + |p| <= i < 8 ==> b[i] == 0
  {
    HexRoundTrip(SingleFrameBytes(p));
  }

  /**
   * The first frame of a longer payload: type nibble 1, length bits 8..11 in
   * the low nibble of byte 0, length bits 0..7 in byte 1, then payload bytes 0..5.
   */
  lemma FirstFrameShape(p: seq<int>, canId: int)
    requires IsBytes(p) && |p| > 7
    ensures EncodeFrames(p, canId)[0] == First(canId, EncodeFrames(p, canId)[0].data, |p|)
    ensures var b := HexToBytes(EncodeFrames(p, canId)[0].data);
      |b| == 8 && b[0] / 16 == 1 && b[0] % 16 == (|p| / 256) % 16 && b[1] == |p| % 256 && b[2..] == p[..6]
  {
    HexRoundTrip(FirstFrameBytes(p));
  }

  /** Frame `k >= 1` of a longer payload is the consecutive frame for the chunk at `6 + 7 (k - 1)`, numbered `k mod 16`. */
  lemma EncodedFrameAt(p: seq<int>, canId: int, k: nat)
    requires IsBytes(p) && |p| > 7 && 1 <= k < |EncodeFrames(p, canId)|
    ensures 6 + 7 * (k - 1) < |p|
    ensures EncodeFrames(p, canId)[k] == ConsecutiveFrame(p, canId, 6 + 7 * (k - 1), k % 16)
  {
    var frames, rest := EncodeFrames(p, canId), ConsecutiveFrames(p, canId, 6, 1);
    assert frames == [frames[0]] + rest;
    ConsecutiveFrameAt(p, canId, 6, 1, k - 1);
    assert 1 + (k - 1) == k;
  }

  /** A consecutive frame carries its sequence number in its field and in the low nibble of byte 0, then the chunk, zero padded. */
  lemma ConsecutiveFrameLayout(p: seq<int>, canId: int, offset: nat, sn: nat)
    requires IsBytes(p) && offset < |p| && sn < 16
    ensures ConsecutiveFrame(p, canId, offset, sn).sequenceNumber == sn
    ensures var b := HexToBytes(ConsecutiveFrame(p, canId, offset, sn).data);
      var chunk := Chunk(p, offset);
      |b| == 8 && b[0] == 0x20 + sn && b[1..] == chunk + Zeros(7 - |chunk|)
  {
    HexRoundTrip(ConsecutiveFrameBytes(p, offset, sn));
  }

  /**
   * Frame `k >= 1` of a longer payload is a consecutive frame with sequence
   * number `k mod 16`, in its field and in the low nibble of byte 0, carrying
   * the seven payload bytes from `6 + 7 (k - 1)` on, zero padded.
   */
  lemma SequenceNumbers(p: seq<int>, canId: int, k: nat)
    requires IsBytes(p) && |p| > 7 && 1 <= k < |EncodeFrames(p, canId)|
    ensures 6 + 7 * (k - 1) < |p|
    ensures EncodeFrames(p, canId)[k].Consecutive? && IsHex(EncodeFrames(p, canId)[k].data)
    ensures EncodeFrames(p, canId)[k].sequenceNumber == k % 16
    ensures var b := HexToBytes(EncodeFrames(p, canId)[k].data);
      var chunk := Chunk(p, 6 + 7 * (k - 1));
      |b| == 8 && b[0] == 0x20 + k % 16 && b[1..] == chunk + Zeros(7 - |chunk|)
  {
    EncodedFrameAt(p, canId, k);
    ConsecutiveFrameLayout(p, canId, 6 + 7 * (k - 1), k % 16);
  }

  /** Every frame `encode` emits is eight bytes of canonical hex. */
  lemma EveryFrameEightBytes(p: seq<int>, canId: int, k: nat)
    requires IsBytes(p) && k < |EncodeFrames(p, canId)|
    ensures |EncodeFrames(p, canId)[k].data| == 16 && IsUpperHex(EncodeFrames(p, canId)[k].data)
  {
    if k > 0 {
      ConsecutiveFrameAt(p, canId, 6, 1, k - 1);
    }
  }

  // ---------------------------------------------------------------------------
  // Round trip

  lemma DatasAppend(a: seq<Frame>, b: seq<Frame>)
    ensures Datas(a + b) == Datas(a) + Datas(b)
  {
  }

  /** Parsing a list of frame texts one by one: the head's bytes, then the rest's. */
  lemma ParseFramesCons(d: string, ds: seq<string>)
    requires IsHex(d) && AllHex(ds)
    ensures AllHex([d] + ds)
    ensures ParseFrames([d] + ds) == [HexToBytes(d)] + ParseFrames(ds)
  {
    assert AllHex([d] + ds);
    var l, r := ParseFrames([d] + ds), [HexToBytes(d)] + ParseFrames(ds);
    assert forall k | 0 <= k < |l| :: l[k] == r[k] by {
      forall k | 0 <= k < |l|
        ensures l[k] == r[k]
      {
        if k > 0 {
          assert ([d] + ds)[k] == ds[k - 1];
        }
      }
    }
  }

  /** Parsing a rendered frame in front of other frame texts gives back its bytes. */
  lemma ParseRenderedFrame(bytes: seq<int>, ds: seq<string>)
    requires IsBytes(bytes) && AllHex(ds)
    ensures AllHex([BytesToHex(bytes)] + ds)
    ensures ParseFrames([BytesToHex(bytes)] + ds) == [bytes] + ParseFrames(ds)
  {
    ParseFramesCons(BytesToHex(bytes), ds);
    HexRoundTrip(bytes);
  }

  /** Parsing the texts of the consecutive frames from `offset` on: the first one's bytes, then the rest's. */
  lemma ParseConsecutiveFrames(p: seq<int>, canId: int, offset: nat, sn: nat)
    requires IsBytes(p) && offset < |p|
    requires AllHex(Datas(ConsecutiveFrames(p, canId, offset + 7, (sn + 1) % 16)))
    ensures AllHex(Datas(ConsecutiveFrames(p, canId, offset, sn)))
    ensures ParseFrames(Datas(ConsecutiveFrames(p, canId, offset, sn)))
         == [ConsecutiveFrameBytes(p, offset, sn)] + ParseFrames(Datas(ConsecutiveFrames(p, canId, offset + 7, (sn + 1) % 16)))
  {
    var bytes := ConsecutiveFrameBytes(p, offset, sn);
    var rest := ConsecutiveFrames(p, canId, offset + 7, (sn + 1) % 16);
    assert Datas(ConsecutiveFrames(p, canId, offset, sn)) == [BytesToHex(bytes)] + Datas(rest) by {
      DatasAppend([ConsecutiveFrame(p, canId, offset, sn)], rest);
    }
    ParseRenderedFrame(bytes, Datas(rest));
  }

  /** The zero bytes that pad the last consecutive frame when `m` payload bytes remain. */
  function PadLength(m: int): nat
  {
    if m <= 0 then 0 else (7 - m % 7) % 7
  }

  /** What a consecutive frame contributes when read back: its chunk and padding. */
  lemma ConsecutiveFramePayload(p: seq<int>, offset: nat, sn: nat)
    requires IsBytes(p) && offset < |p|
    ensures var c := Chunk(p, offset);
      FramePayload(ConsecutiveFrameBytes(p, offset, sn)) == c + Zeros(7 - |c|)
  {
    var bytes := ConsecutiveFrameBytes(p, offset, sn);
    assert FrameType(bytes) == 2;
  }

  lemma ConsecutiveDataCons(b: seq<int>, bs: seq<seq<int>>)
    requires IsBytes(b) && AllBytes(bs)
    ensures AllBytes([b] + bs)
    ensures ConsecutiveData([b] + bs) == FramePayload(b) + ConsecutiveData(bs)
  {
    assert ([b] + bs)[1..] == bs;
  }

  /** The padding of the last frame: `7 - m` for the last `m <= 7` bytes, unchanged by a full frame before it. */
  lemma PadLengthStep(m: int)
    requires m > 0
    ensures m <= 7 ==> PadLength(m) == 7 - m
    ensures m > 7 ==> PadLength(m - 7) == PadLength(m)
  {
    if m < 7 {
      DivModUnique(m, 7, 0, m);
    } else if m > 7 {
      DivModUnique(m, 7, (m - 7) / 7 + 1, (m - 7) % 7);
    }
  }

  /** Every consecutive frame carries hex text. */
  lemma {:induction false} ConsecutiveFramesHex(p: seq<int>, canId: int, offset: nat, sn: nat)
    requires IsBytes(p)
    ensures AllHex(Datas(ConsecutiveFrames(p, canId, offset, sn)))
    decreases |p| - offset
  {
    if offset < |p| {
      ConsecutiveFramesHex(p, canId, offset + 7, (sn + 1) % 16);
      var first := [ConsecutiveFrame(p, canId, offset, sn)];
      var rest := ConsecutiveFrames(p, canId, offset + 7, (sn + 1) % 16);
      DatasAppend(first, rest);
    }
  }

  /** Reading back the consecutive frames from `offset` on yields the rest of the payload and the padding. */
  lemma {:induction false} ConsecutiveFramesReadBack(p: seq<int>, canId: int, offset: nat, sn: nat)
    requires IsBytes(p)
    ensures AllHex(Datas(ConsecutiveFrames(p, canId, offset, sn)))
    ensures ConsecutiveData(ParseFrames(Datas(ConsecutiveFrames(p, canId, offset, sn))))
         == Drop(p, offset) + Zeros(PadLength(|p| - offset))
    decreases |p| - offset
  {
    if offset < |p| {
      var bytes := ConsecutiveFrameBytes(p, offset, sn);
      ConsecutiveFramesReadBack(p, canId, offset + 7, (sn + 1) % 16);
      var rest := ParseFrames(Datas(ConsecutiveFrames(p, canId, offset + 7, (sn + 1) % 16)));
      ParseConsecutiveFrames(p, canId, offset, sn);
      ConsecutiveDataCons(bytes, rest);
      ConsecutiveFramePayload(p, offset, sn);
      var chunk := Chunk(p, offset);
      var m := |p| - offset;
      PadLengthStep(m);
      if m <= 7 {
        assert chunk == Drop(p, offset) && Drop(p, offset + 7) == [];
      } else {
        assert Drop(p, offset) == chunk + Drop(p, offset + 7);
      }
    } else {
      assert Drop(p, offset) == [];
    }
  }

  /** The length field of a first frame keeps the length modulo 4096. */
  lemma TwelveBitLength(n: nat)
    ensures ((n / 256) % 16) * 256 + n % 256 == n % 4096
  {
    var q, r := n / 256, n % 256;
    var a, b := q / 16, q % 16;
    assert n == a * 4096 + (b * 256 + r);
    DivModUnique(n, 4096, a, b * 256 + r);
  }

  /** The single-frame bytes of a payload reassemble to that payload. */
  lemma ReassembleSingleFrame(p: seq<int>)
    requires IsBytes(p) && |p| <= 7
    ensures AllBytes([SingleFrameBytes(p)])
    ensures Reassemble([SingleFrameBytes(p)]) == Some(p)
  {
    var first := SingleFrameBytes(p);
    assert first[Min(1, |first|)..Min(1 + At(first, 0) % 16, |first|)] == p;
  }

  /**
   * A list led by the first-frame bytes of a payload, whose later frames
   * carry the rest of it and some padding, reassembles to the payload cut to
   * its length modulo 4096.
   */
  lemma ReassembleFirstFrame(frames: seq<seq<int>>, p: seq<int>, pad: nat)
    requires AllBytes(frames) && frames != [] && IsBytes(p) && |p| > 7
    requires frames[0] == FirstFrameBytes(p)
    requires ConsecutiveData(frames[1..]) == p[6..] + Zeros(pad)
    ensures Reassemble(frames) == Some(p[..|p| % 4096])
  {
    var first := frames[0];
    assert FrameType(first) == 1;
    TwelveBitLength(|p|);
    assert DeclaredLength(first) == |p| % 4096;
    assert Drop(first, 2) == p[..6];
    var collected := Drop(first, 2) + ConsecutiveData(frames[1..]);
    assert collected == p + Zeros(pad);
    assert Take(collected, |p| % 4096) == p[..|p| % 4096];
  }

  /** Parsing the frame `encode` emits for a short payload gives back its bytes. */
  lemma ParseSingleFrame(p: seq<int>, canId: int)
    requires IsBytes(p) && |p| <= 7
    ensures AllHex(Datas(EncodeFrames(p, canId)))
    ensures ParseFrames(Datas(EncodeFrames(p, canId))) == [SingleFrameBytes(p)]
  {
    var bytes := SingleFrameBytes(p);
    assert Datas(EncodeFrames(p, canId)) == [BytesToHex(bytes)] + [];
    ParseRenderedFrame(bytes, []);
  }

  /** Parsing the frames `encode` emits for a longer payload gives back the first frame's bytes, then the others'. */
  lemma ParseMultiFrame(p: seq<int>, canId: int)
    requires IsBytes(p) && |p| > 7
    ensures AllHex(Datas(ConsecutiveFrames(p, canId, 6, 1)))
    ensures AllHex(Datas(EncodeFrames(p, canId)))
    ensures ParseFrames(Datas(EncodeFrames(p, canId)))
         == [FirstFrameBytes(p)] + ParseFrames(Datas(ConsecutiveFrames(p, canId, 6, 1)))
  {
    var bytes := FirstFrameBytes(p);
    var rest := ConsecutiveFrames(p, canId, 6, 1);
    ConsecutiveFramesHex(p, canId, 6, 1);
    assert Datas(EncodeFrames(p, canId)) == [BytesToHex(bytes)] + Datas(rest) by {
      DatasAppend([First(canId, BytesToHex(bytes), |p|)], rest);
    }
    ParseRenderedFrame(bytes, Datas(rest));
  }

  /**
   * Reassembling what `encode` emits gives back the payload cut to its length
   * modulo 4096, since the first frame holds only twelve bits of length.
   */
  lemma EncodeReassemble(p: seq<int>, canId: int)
    requires IsBytes(p)
    ensures AllHex(Datas(EncodeFrames(p, canId)))
    ensures Reassemble(ParseFrames(Datas(EncodeFrames(p, canId)))) == Some(p[..|p| % 4096])
  {
    if |p| <= 7 {
      ParseSingleFrame(p, canId);
      ReassembleSingleFrame(p);
      assert p[..|p| % 4096] == p;
    } else {
      ReassembleMultiFrame(p, canId);
    }
  }

  /** The multi-frame half of `EncodeReassemble`. */
  lemma ReassembleMultiFrame(p: seq<int>, canId: int)
    requires IsBytes(p) && |p| > 7
    ensures AllHex(Datas(EncodeFrames(p, canId)))
    ensures Reassemble(ParseFrames(Datas(EncodeFrames(p, canId)))) == Some(p[..|p| % 4096])
  {
    ParseMultiFrame(p, canId);
    var parsed := ParseFrames(Datas(EncodeFrames(p, canId)));
    var rest := ParseFrames(Datas(ConsecutiveFrames(p, canId, 6, 1)));
    assert parsed[1..] == rest;
    ConsecutiveFramesReadBack(p, canId, 6, 1);
    assert Drop(p, 6) == p[6..];
    ReassembleFirstFrame(parsed, p, PadLength(|p| - 6));
  }


  /** Decoding the frame texts `encode` emits gives back the payload cut to its length modulo 4096. */
  lemma EncodeDecode(p: seq<int>, canId: int)
    requires IsBytes(p)
    ensures AllHex(Datas(EncodeFrames(p, canId)))
    ensures DecodeFrames(Datas(EncodeFrames(p, canId))) == Some(BytesToHex(p[..|p| % 4096]))
  {
    EncodeReassemble(p, canId);
  }

  /** For every payload of 0..4095 bytes, decoding the encoded frames gives back the payload. */
  lemma RoundTrip(p: seq<int>, canId: int)
    requires IsBytes(p) && |p| <= MaxDataLength
    ensures AllHex(Datas(EncodeFrames(p, canId)))
    ensures DecodeFrames(Datas(EncodeFrames(p, canId))) == Some(BytesToHex(p))
  {
    EncodeDecode(p, canId);
    assert p[..|p| % 4096] == p by {
      DivModUnique(|p|, 4096, 0, |p|);
    }
  }

  /** A 4096-byte payload is encoded with a declared length of 0 and decodes to nothing. */
  lemma OversizedPayloadLost(p: seq<int>, canId: int)
    requires IsBytes(p) && |p| == MaxDataLength + 1
    ensures AllHex(Datas(EncodeFrames(p, canId)))
    ensures DecodeFrames(Datas(EncodeFrames(p, canId))) == Some("")
  {
    EncodeDecode(p, canId);
  }

  /** `encode` with the length check the `maxDataLength` field calls for. */
  function EncodeChecked(data: string, canId: int): (r: Result<seq<Frame>, string>)
    requires IsHex(data)
  {
    var p := HexToBytes(data);
    if |p| > MaxDataLength then Failure("Data too long for ISO-TP") else Success(EncodeFrames(p, canId))
  }

  /** The checked encoder refuses exactly the payloads the first frame cannot describe, and every frame list it returns decodes to the payload. */
  lemma EncodeCheckedRoundTrip(data: string, canId: int)
    requires IsHex(data)
    ensures EncodeChecked(data, canId).Failure? <==> |data| / 2 > MaxDataLength
    ensures EncodeChecked(data, canId).Success? ==>
      AllHex(Datas(EncodeChecked(data, canId).value))
      && DecodeFrames(Datas(EncodeChecked(data, canId).value)) == Some(BytesToHex(HexToBytes(data)))
  {
    if |data| / 2 <= MaxDataLength {
      RoundTrip(HexToBytes(data), canId);
    }
  }

  // ---------------------------------------------------------------------------
  // Decode behaviour

  /** `decode` returns `null` exactly for an empty list or a leading type nibble other than 0 and 1. */
  lemma DecodeNone(frames: seq<string>)
    requires AllHex(frames)
    ensures DecodeFrames(frames) == None <==> frames == [] || FrameType(HexToBytes(frames[0])) > 1
  {
    if frames != [] {
      assert ParseFrames(frames)[0] == HexToBytes(frames[0]);
    }
  }

  lemma {:induction false} ConsecutiveDataAppend(a: seq<seq<int>>, b: seq<seq<int>>)
    requires AllBytes(a) && AllBytes(b)
    ensures AllBytes(a + b)
    ensures ConsecutiveData(a + b) == ConsecutiveData(a) + ConsecutiveData(b)
    decreases |a|
  {
    if a == [] {
      assert a + b == b;
    } else {
      assert (a + b)[1..] == a[1..] + b;
      ConsecutiveDataAppend(a[1..], b);
    }
  }

  /** Reassembly depends on the frames after the first only through the bytes they contribute. */
  lemma ReassembleByCollectedData(fs: seq<seq<int>>, gs: seq<seq<int>>)
    requires AllBytes(fs) && AllBytes(gs) && fs != [] && gs != [] && fs[0] == gs[0]
    requires ConsecutiveData(fs[1..]) == ConsecutiveData(gs[1..])
    ensures Reassemble(fs) == Reassemble(gs)
  {
  }

  /** A frame that contributes nothing can be dropped from between the others. */
  lemma ConsecutiveDataSkip(a: seq<seq<int>>, x: seq<int>, b: seq<seq<int>>)
    requires AllBytes(a) && IsBytes(x) && AllBytes(b) && FramePayload(x) == []
    ensures AllBytes(a + [x] + b) && AllBytes(a + b)
    ensures ConsecutiveData(a + [x] + b) == ConsecutiveData(a + b)
  {
    ConsecutiveDataCons(x, b);
    ConsecutiveDataAppend(a, [x] + b);
    ConsecutiveDataAppend(a, b);
    assert a + [x] + b == a + ([x] + b);
  }

  /** After the first frame, a frame whose type nibble is not 2 is ignored wherever it is inserted. */
  lemma ReassemblySkipsOtherFrames(frames: seq<seq<int>>, i: nat, x: seq<int>)
    requires AllBytes(frames) && 1 <= i <= |frames| && IsBytes(x) && FrameType(x) != 2
    ensures AllBytes(frames[..i] + [x] + frames[i..])
    ensures Reassemble(frames[..i] + [x] + frames[i..]) == Reassemble(frames)
  {
    var a, b := frames[1..i], frames[i..];
    var g := frames[..i] + [x] + frames[i..];
    assert frames[..i] == [frames[0]] + a;
    assert g == [frames[0]] + (a + [x] + b);
    assert frames[1..] == a + b;
    ConsecutiveDataSkip(a, x, b);
    assert AllBytes(g);
    ReassembleByCollectedData(g, frames);
  }

  /** Parsing commutes with inserting a frame text. */
  lemma ParseFramesInsert(frames: seq<string>, i: nat, x: string)
    requires AllHex(frames) && i <= |frames| && IsHex(x)
    ensures AllHex(frames[..i] + [x] + frames[i..])
    ensures ParseFrames(frames[..i] + [x] + frames[i..])
         == ParseFrames(frames)[..i] + [HexToBytes(x)] + ParseFrames(frames)[i..]
  {
    var g := frames[..i] + [x] + frames[i..];
    assert AllHex(g) by {
      forall k | 0 <= k < |g|
        ensures IsHex(g[k])
      {
        if k < i {
          assert g[k] == frames[k];
        } else if k > i {
          assert g[k] == frames[k - 1];
        }
      }
    }
    var l, r := ParseFrames(g), ParseFrames(frames)[..i] + [HexToBytes(x)] + ParseFrames(frames)[i..];
    forall k | 0 <= k < |l|
      ensures l[k] == r[k]
    {
      if k < i {
        assert g[k] == frames[k];
      } else if k > i {
        assert g[k] == frames[k - 1];
      }
    }
  }

  /** `decode` ignores a frame whose type nibble is not 2 wherever it is inserted after the first. */
  lemma DecodeSkipsOtherFrames(frames: seq<string>, i: nat, x: string)
    requires AllHex(frames) && 1 <= i <= |frames| && IsHex(x) && FrameType(HexToBytes(x)) != 2
    ensures AllHex(frames[..i] + [x] + frames[i..])
    ensures DecodeFrames(frames[..i] + [x] + frames[i..]) == DecodeFrames(frames)
  {
    ParseFramesInsert(frames, i, x);
    ReassemblySkipsOtherFrames(ParseFrames(frames), i, HexToBytes(x));
  }

  /** Two frames that agree in everything but the low nibble of byte 0. */
  predicate SameBesidesSequenceNumber(a: seq<int>, b: seq<int>)
    requires IsBytes(a) && IsBytes(b)
  {
    FrameType(a) == FrameType(b) && Drop(a, 1) == Drop(b, 1)
  }

  lemma {:induction false} ConsecutiveDataIgnoresSequenceNumbers(fs: seq<seq<int>>, gs: seq<seq<int>>)
    requires AllBytes(fs) && AllBytes(gs) && |fs| == |gs|
    requires forall i :: 0 <= i < |fs| ==> SameBesidesSequenceNumber(fs[i], gs[i])
    ensures ConsecutiveData(fs) == ConsecutiveData(gs)
    decreases |fs|
  {
    if fs != [] {
      assert SameBesidesSequenceNumber(fs[0], gs[0]);
      ConsecutiveDataIgnoresSequenceNumbers(fs[1..], gs[1..]);
    }
  }

  /**
   * `decode` never looks at sequence numbers: frame lists that differ only in
   * the low nibble of byte 0 of the frames after the first decode alike.
   */
  lemma DecodeIgnoresSequenceNumbers(fs: seq<string>, gs: seq<string>)
    requires AllHex(fs) && AllHex(gs) && |fs| == |gs| && |fs| >= 1 && fs[0] == gs[0]
    requires forall i :: 1 <= i < |fs| ==> SameBesidesSequenceNumber(HexToBytes(fs[i]), HexToBytes(gs[i]))
    ensures DecodeFrames(fs) == DecodeFrames(gs)
  {
    var pf, pg := ParseFrames(fs), ParseFrames(gs);
    forall i | 0 <= i < |fs| - 1
      ensures SameBesidesSequenceNumber(pf[1..][i], pg[1..][i])
    {
      assert pf[1..][i] == HexToBytes(fs[i + 1]) && pg[1..][i] == HexToBytes(gs[i + 1]);
    }
    ConsecutiveDataIgnoresSequenceNumbers(pf[1..], pg[1..]);
    ReassembleByCollectedData(pf, pg);
  }

  /** A reassembled message is never longer than the length its first frame declares. */
  lemma ReassembledWithinDeclaredLength(frames: seq<seq<int>>)
    requires AllBytes(frames) && Reassemble(frames).Some?
    ensures IsBytes(frames[0])
    ensures |Reassemble(frames).value| <= if FrameType(frames[0]) == 0 then At(frames[0], 0) % 16 else DeclaredLength(frames[0])
  {
  }

  // ---------------------------------------------------------------------------
  // Flow control and timing

  /** What `parseFlowControl` returns; a missing byte is `undefined`, here `None`. */
  datatype FlowControlInfo = FlowControlInfo(status: int, blockSize: Option<int>, separationTime: Option<int>)

  /** `generateFlowControl(status, blockSize, separationTime)`: type nibble 3 or-ed with the status, then the two parameters. */
  function GenerateFlowControl(status: int, blockSize: int, separationTime: int): (s: string)
    requires IsByte(status) && IsByte(blockSize) && IsByte(separationTime)
    ensures |s| == 6 && IsUpperHex(s)
  {
    BytesToHex([OrByte(FlowControlType, status), blockSize, separationTime])
  }

  /** `parseFlowControl(frame)`: the low nibble of byte 0, then bytes 1 and 2 when present. */
  function ParseFlowControl(frame: string): FlowControlInfo
    requires IsHex(frame)
  {
    var b := HexToBytes(frame);
    FlowControlInfo(At(b, 0) % 16,
                    if |b| > 1 then Some(b[1]) else None,
                    if |b| > 2 then Some(b[2]) else None)
  }

  /** Or-ing a status into the type nibble 3 keeps the status's low nibble. */
  lemma FlowControlStatusNibble(status: int)
    requires IsByte(status)
    ensures OrByte(FlowControlType, status) % 16 == status % 16
  {
    assert Pow2(4) == 16 && Low(FlowControlType, 4) == 0;
    OrBits(FlowControlType, status, 4);
    OrZero(Low(status, 4));
    LowHighDivMod(status, 4);
    LowHighDivMod(Or(FlowControlType, status), 4);
  }

  /** For a status below 16 the or is a sum. */
  lemma FlowControlByte(status: int)
    requires 0 <= status < 16
    ensures OrByte(FlowControlType, status) == FlowControlType + status
  {
    assert Pow2(4) == 16 && Low(FlowControlType, 4) == 0;
    OrDisjoint(FlowControlType, status, 4);
  }

  /** Parsing a generated flow-control frame gives back its status nibble and both parameters. */
  lemma FlowControlRoundTrip(status: int, blockSize: int, separationTime: int)
    requires IsByte(status) && IsByte(blockSize) && IsByte(separationTime)
    ensures ParseFlowControl(GenerateFlowControl(status, blockSize, separationTime))
         == FlowControlInfo(status % 16, Some(blockSize), Some(separationTime))
    ensures status < 16 ==> HexToBytes(GenerateFlowControl(status, blockSize, separationTime))[0] / 16 == 3
  {
    FlowControlStatusNibble(status);
    if status < 16 {
      FlowControlByte(status);
    }
    HexRoundTrip([OrByte(FlowControlType, status), blockSize, separationTime]);
  }

  /** The defaults: continue to send, no block limit, no separation time. */
  lemma DefaultFlowControl()
    ensures GenerateFlowControl(FlowContinue, 0, 0) == "300000"
  {
    FlowControlByte(FlowContinue);
    assert [OrByte(FlowControlType, FlowContinue), 0, 0] == [0x30, 0, 0];
    assert BytesToHex([0x30, 0, 0]) == "30" + BytesToHex([0, 0]);
    assert BytesToHex([0, 0]) == "00" + BytesToHex([0]);
  }

  /** The minimum separation time a STmin code stands for. */
  datatype SeparationTime = Milliseconds(ms: int) | TenthsOfMillisecond(tenths: int)

  function Microseconds(t: SeparationTime): int
  {
    match t
    case Milliseconds(ms) => ms * 1000
    case TenthsOfMillisecond(tenths) => tenths * 100
  }

  /**
   * `calculateSeparationTime(stMin)`: codes up to 0x7F are milliseconds,
   * 0xF1..0xF9 are 100..900 microseconds, and everything else counts as 0.
   * The source returns the tenths as a fraction of a millisecond.
   */
  function CalculateSeparationTime(stMin: int): (t: SeparationTime)
    ensures stMin <= 0x7F ==> Microseconds(t) == stMin * 1000
    ensures 0xF1 <= stMin <= 0xF9 ==> Microseconds(t) == (stMin - 0xF0) * 100
    ensures 0x7F < stMin && !(0xF1 <= stMin <= 0xF9) ==> Microseconds(t) == 0
  {
    if stMin <= 0x7F then Milliseconds(stMin)
    else if 0xF1 <= stMin <= 0xF9 then TenthsOfMillisecond(stMin - 0xF0)
    else Milliseconds(0)
  }

  /** Every STmin byte gives a separation time of 0..127 ms, and a nonzero one below 1 ms only for 0xF1..0xF9. */
  lemma SeparationTimeRange(stMin: int)
    requires IsByte(stMin)
    ensures 0 <= Microseconds(CalculateSeparationTime(stMin)) <= 127000
    ensures 0 < Microseconds(CalculateSeparationTime(stMin)) < 1000 <==> 0xF1 <= stMin <= 0xF9
  {
  }
}
