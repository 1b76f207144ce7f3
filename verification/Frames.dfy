/**
 Frames and datagrams on the wire. `FrameBytes` and `ParseFrame` give the layout and its
 reading; `EncodeFrame`, `DecodeFrame` and the datagram methods produce and consume it.
 */
module Frames {
  import opened Wrappers
  import opened Bytes
  import opened Uint24
  import opened AckCodec

  datatype Reliability =
    Unreliable | UnreliableSequenced | Reliable | ReliableOrdered | ReliableSequenced
  {
    function ToU8(): byte {
      match this
      case Unreliable => 0
      case UnreliableSequenced => 1
      case Reliable => 2
      case ReliableOrdered => 3
      case ReliableSequenced => 4
    }

    predicate IsReliable() {
      Reliable? || ReliableOrdered? || ReliableSequenced?
    }

    predicate IsSequenced() {
      UnreliableSequenced? || ReliableSequenced?
    }

    predicate IsOrdered() {
      ReliableOrdered? || ReliableSequenced?
    }
  }

  function ReliabilityFromU8(x: byte): (r: Option<Reliability>)
    ensures forall l: Reliability :: r == Some(l) <==> l.ToU8() == x
  {
    if x == 0 then Some(Unreliable)
    else if x == 1 then Some(UnreliableSequenced)
    else if x == 2 then Some(Reliable)
    else if x == 3 then Some(ReliableOrdered)
    else if x == 4 then Some(ReliableSequenced)
    else None
  }

  datatype SplitInfo = SplitInfo(count: u32, id: u16, index: u32)

  datatype Frame = Frame(
    reliability: Reliability,
    messageIndex: Option<u24>, sequenceIndex: Option<u24>, orderIndex: Option<u24>, orderChannel: byte,
    split: Option<SplitInfo>, payload: Data)

  // ----- layout -----

  function IndexBytes(present: bool, index: Option<u24>): seq<byte> {
    if present then U24Le(index.GetOr(0)) else []
  }

  function OrderBytes(present: bool, index: Option<u24>, channel: byte): seq<byte> {
    if present then U24Le(index.GetOr(0)) + [channel] else []
  }

  function SplitBytes(split: Option<SplitInfo>): seq<byte> {
    match split
    case None => []
    case Some(s) => U32Be(s.count) + U16Be(s.id) + U32Be(s.index)
  }

  function Flags(f: Frame): byte {
    f.reliability.ToU8() as int * 0x20 + if f.split.Some? then 0x10 else 0
  }

  /** The payload length in bits, truncated to 16 bits. */
  function LengthBits(payload: Data): u16 {
    AsU16(|payload| * 8)
  }

  function FrameBytes(f: Frame): (s: seq<byte>)
    ensures |s| >= 3 + |f.payload|
  {
    HeadBytes(f) + BodyBytes(f)
  }

  function HeadBytes(f: Frame): seq<byte> {
    [Flags(f)] + U16Be(LengthBits(f.payload))
  }

  function BodyBytes(f: Frame): seq<byte> {
    IndexBytes(f.reliability.IsReliable(), f.messageIndex)
    + IndexBytes(f.reliability.IsSequenced(), f.sequenceIndex)
    + OrderBytes(f.reliability.IsOrdered(), f.orderIndex, f.orderChannel)
    + SplitBytes(f.split)
    + f.payload
  }

  function FramesBytes(fs: seq<Frame>): seq<byte> {
    if fs == [] then [] else FrameBytes(fs[0]) + FramesBytes(fs[1..])
  }

  // ----- reading -----

  /** Bits to bytes, rounding up, in 16-bit arithmetic: the addition wraps above 65528. */
  function LengthBytes(bits: u16): nat {
    AsU16(bits + 7) / 8
  }

  function ParseIndex(present: bool, buf: seq<byte>, missing: string): Result<(Option<u24>, seq<byte>)> {
    if !present then Ok((None, buf))
    else if |buf| < 3 then Err(InvalidPacket(missing))
    else Ok((Some(ReadU24Le(buf)), buf[3..]))
  }

  function ParseOrder(present: bool, buf: seq<byte>): Result<(Option<u24>, byte, seq<byte>)> {
    if !present then Ok((None, 0, buf))
    else if |buf| < 4 then Err(InvalidPacket("Frame missing order index"))
    else Ok((Some(ReadU24Le(buf)), buf[3], buf[4..]))
  }

  function ParseSplit(present: bool, buf: seq<byte>): Result<(Option<SplitInfo>, seq<byte>)> {
    if !present then Ok((None, buf))
    else if |buf| < 10 then Err(InvalidPacket("Frame missing split info"))
    else Ok((Some(SplitInfo(ReadU32Be(buf), ReadU16Be(buf[4..]), ReadU32Be(buf[6..]))), buf[10..]))
  }

  function PayloadTruncated(expected: nat, got: nat): Error {
    InvalidPacket("Frame payload truncated: expected " + Decimal(expected) + " bytes, got " + Decimal(got))
  }

  /** What follows the flags and the length: the optional fields and the payload. */
  function ParseBody(reliability: Reliability, isSplit: bool, length: nat, buf: seq<byte>)
    : (r: Result<(Frame, seq<byte>)>)
    ensures r.Ok? ==> |r.value.1| <= |buf| && r.value.1 == buf[|buf| - |r.value.1|..]
  {
    match ParseIndex(reliability.IsReliable(), buf, "Frame missing message index")
    case Err(e) => Err(e)
    case Ok((message, buf1)) =>
      match ParseIndex(reliability.IsSequenced(), buf1, "Frame missing sequence index")
      case Err(e) => Err(e)
      case Ok((sequence, buf2)) =>
        match ParseOrder(reliability.IsOrdered(), buf2)
        case Err(e) => Err(e)
        case Ok((order, channel, buf3)) =>
          match ParseSplit(isSplit, buf3)
          case Err(e) => Err(e)
          case Ok((split, buf4)) =>
            if |buf4| < length then Err(PayloadTruncated(length, |buf4|))
            else Ok((Frame(reliability, message, sequence, order, channel, split, buf4[..length]), buf4[length..]))
  }

  /** One frame and the bytes after it; a frame takes at least three bytes. */
  function ParseFrame(buf: seq<byte>): (r: Result<(Frame, seq<byte>)>)
    ensures r.Ok? ==> |r.value.1| + 3 <= |buf| && r.value.1 == buf[|buf| - |r.value.1|..]
  {
    if |buf| < 3 then Err(InvalidPacket("Frame too short"))
    else match ReliabilityFromU8(buf[0] / 0x20)
      case None => Err(InvalidPacket("Invalid reliability: " + Decimal(buf[0] / 0x20)))
      case Some(reliability) =>
        ParseBody(reliability, buf[0] / 0x10 % 2 == 1, LengthBytes(ReadU16Be(buf[1..3])), buf[3..])
  }

  /** What the receive loop gets out of a byte string: the frames up to the first error. */
  function ParseAll(buf: seq<byte>): (seq<Frame>, Option<Error>)
    decreases |buf|
  {
    if buf == [] then ([], None)
    else match ParseFrame(buf)
      case Err(e) => ([], Some(e))
      case Ok((f, rest)) =>
        var (fs, e) := ParseAll(rest);
        ([f] + fs, e)
  }

  // ----- round trips -----

  /** A frame as the wire carries it: a missing index that the reliability calls for reads as
      zero, fields it does not call for are cleared, and the payload is cut to the length
      that the 16-bit field can express. */
  function Carried(f: Frame): Frame {
    Frame(f.reliability,
          if f.reliability.IsReliable() then Some(f.messageIndex.GetOr(0)) else None,
          if f.reliability.IsSequenced() then Some(f.sequenceIndex.GetOr(0)) else None,
          if f.reliability.IsOrdered() then Some(f.orderIndex.GetOr(0)) else None,
          if f.reliability.IsOrdered() then f.orderChannel else 0,
          f.split,
          f.payload[..|f.payload| % 8192])
  }

  lemma LengthCarried(payload: Data)
    ensures LengthBytes(LengthBits(payload)) == |payload| % 8192
  {
    assert |payload| == |payload| / 8192 * 8192 + |payload| % 8192;
    assert LengthBits(payload) == |payload| % 8192 * 8;
  }

  lemma ParseIndexBytes(present: bool, index: Option<u24>, tail: seq<byte>, missing: string)
    ensures ParseIndex(present, IndexBytes(present, index) + tail, missing)
         == Ok((if present then Some(index.GetOr(0)) else None, tail))
  {
    if present {
      ReadAfterWrite(index.GetOr(0), tail);
    } else {
      assert IndexBytes(present, index) + tail == tail;
    }
  }

  lemma ParseOrderBytes(present: bool, index: Option<u24>, channel: byte, tail: seq<byte>)
    ensures ParseOrder(present, OrderBytes(present, index, channel) + tail)
         == Ok((if present then Some(index.GetOr(0)) else None, if present then channel else 0, tail))
  {
    if present {
      assert OrderBytes(present, index, channel) + tail == U24Le(index.GetOr(0)) + ([channel] + tail);
      ReadAfterWrite(index.GetOr(0), [channel] + tail);
    } else {
      assert OrderBytes(present, index, channel) + tail == tail;
    }
  }

  lemma ParseSplitBytes(split: Option<SplitInfo>, tail: seq<byte>)
    ensures ParseSplit(split.Some?, SplitBytes(split) + tail) == Ok((split, tail))
  {
    var buf := SplitBytes(split) + tail;
    match split
    case None =>
      assert buf == tail;
    case Some(s) =>
      assert buf[..4] == U32Be(s.count);
      assert buf[4..][..2] == U16Be(s.id);
      assert buf[6..][..4] == U32Be(s.index);
      assert buf[10..] == tail;
  }

  lemma PayloadCut(payload: Data, tail: seq<byte>, n: nat)
    requires n <= |payload|
    ensures (payload + tail)[..n] == payload[..n] && (payload + tail)[n..] == payload[n..] + tail
  {
  }

  lemma BodyNested(f: Frame, tail: seq<byte>)
    ensures BodyBytes(f) + tail
         == IndexBytes(f.reliability.IsReliable(), f.messageIndex)
            + (IndexBytes(f.reliability.IsSequenced(), f.sequenceIndex)
               + (OrderBytes(f.reliability.IsOrdered(), f.orderIndex, f.orderChannel)
                  + (SplitBytes(f.split) + (f.payload + tail))))
  {
    var a := IndexBytes(f.reliability.IsReliable(), f.messageIndex);
    var b := IndexBytes(f.reliability.IsSequenced(), f.sequenceIndex);
    var c := OrderBytes(f.reliability.IsOrdered(), f.orderIndex, f.orderChannel);
    Regroup(a, b, c, SplitBytes(f.split), f.payload, tail);
  }

  lemma Regroup(a: Data, b: Data, c: Data, d: Data, e: Data, tail: Data)
    ensures (a + b + c + d + e) + tail == a + (b + (c + (d + (e + tail))))
  {
  }

  lemma ParseBodyBytes(f: Frame, tail: seq<byte>)
    ensures ParseBody(f.reliability, f.split.Some?, |f.payload| % 8192, BodyBytes(f) + tail)
         == Ok((Carried(f), f.payload[|f.payload| % 8192..] + tail))
  {
    var r := f.reliability;
    var buf4 := f.payload + tail;
    var buf3 := SplitBytes(f.split) + buf4;
    var buf2 := OrderBytes(r.IsOrdered(), f.orderIndex, f.orderChannel) + buf3;
    var buf1 := IndexBytes(r.IsSequenced(), f.sequenceIndex) + buf2;
    BodyNested(f, tail);
    ParseIndexBytes(r.IsReliable(), f.messageIndex, buf1, "Frame missing message index");
    ParseIndexBytes(r.IsSequenced(), f.sequenceIndex, buf2, "Frame missing sequence index");
    ParseOrderBytes(r.IsOrdered(), f.orderIndex, f.orderChannel, buf3);
    ParseSplitBytes(f.split, buf4);
    PayloadCut(f.payload, tail, |f.payload| % 8192);
  }

  lemma FlagsRead(f: Frame)
    ensures ReliabilityFromU8(Flags(f) / 0x20) == Some(f.reliability)
    ensures Flags(f) / 0x10 % 2 == 1 <==> f.split.Some?
  {
    assert Flags(f) / 0x20 == f.reliability.ToU8();
  }

  lemma HeadFirst(f: Frame, rest: seq<byte>)
    ensures var buf := HeadBytes(f) + rest;
            buf[0] == Flags(f) && buf[3..] == rest && ReadU16Be(buf[1..3]) == LengthBits(f.payload)
  {
    var buf := HeadBytes(f) + rest;
    assert buf[1..3] == U16Be(LengthBits(f.payload));
    assert buf[1..3][..2] == buf[1..3];
  }

  /** Where the parts of a frame's bytes stand. */
  lemma FrameParts(f: Frame, tail: seq<byte>)
    ensures var buf := FrameBytes(f) + tail;
            && |buf| >= 3 && buf[0] == Flags(f) && buf[3..] == BodyBytes(f) + tail
            && ReadU16Be(buf[1..3]) == LengthBits(f.payload)
  {
    FrameJoined(f, tail);
    HeadFirst(f, BodyBytes(f) + tail);
  }

  /** What is read back from any frame's bytes, followed by anything. */
  lemma ParseFrameBytes(f: Frame, tail: seq<byte>)
    ensures ParseFrame(FrameBytes(f) + tail)
         == Ok((Carried(f), f.payload[|f.payload| % 8192..] + tail))
  {
    FrameParts(f, tail);
    FlagsRead(f);
    LengthCarried(f.payload);
    ParseBodyBytes(f, tail);
  }

  lemma NothingLeft(payload: Data, tail: seq<byte>)
    ensures |payload| <= 8191 ==> payload[|payload| % 8192..] + tail == tail
    ensures |payload| <= 8191 <==> payload[..|payload| % 8192] == payload
  {
    assert |payload[..|payload| % 8192]| < 8192;
  }

  /** The frame comes back with its whole payload, and nothing is left over, if and only if the
      payload has at most 8191 bytes. */
  lemma FrameRoundTrip(f: Frame, tail: seq<byte>)
    ensures ParseFrame(FrameBytes(f) + tail) == Ok((Carried(f).(payload := f.payload), tail))
            <==> |f.payload| <= 8191
  {
    NothingLeft(f.payload, tail);
    ParseFrameBytes(f, tail);
  }

  // ----- frames cut short -----

  lemma ParseIndexExtends(present: bool, buf: Data, tail: Data, missing: string)
    requires ParseIndex(present, buf, missing).Ok?
    ensures ParseIndex(present, buf + tail, missing)
         == Ok((ParseIndex(present, buf, missing).value.0, ParseIndex(present, buf, missing).value.1 + tail))
  {
    if present {
      assert (buf + tail)[3..] == buf[3..] + tail;
    }
  }

  lemma ParseOrderExtends(present: bool, buf: Data, tail: Data)
    requires ParseOrder(present, buf).Ok?
    ensures var (index, channel, rest) := ParseOrder(present, buf).value;
            ParseOrder(present, buf + tail) == Ok((index, channel, rest + tail))
  {
    if present {
      assert (buf + tail)[4..] == buf[4..] + tail;
    }
  }

  lemma ParseSplitExtends(present: bool, buf: Data, tail: Data)
    requires ParseSplit(present, buf).Ok?
    ensures ParseSplit(present, buf + tail)
         == Ok((ParseSplit(present, buf).value.0, ParseSplit(present, buf).value.1 + tail))
  {
    if present {
      assert (buf + tail)[10..] == buf[10..] + tail;
    }
  }

  lemma ParseBodyExtends(r: Reliability, isSplit: bool, length: nat, buf: Data, tail: Data)
    requires ParseBody(r, isSplit, length, buf).Ok?
    ensures ParseBody(r, isSplit, length, buf + tail)
         == Ok((ParseBody(r, isSplit, length, buf).value.0, ParseBody(r, isSplit, length, buf).value.1 + tail))
  {
    var (_, buf1) := ParseIndex(r.IsReliable(), buf, "Frame missing message index").value;
    ParseIndexExtends(r.IsReliable(), buf, tail, "Frame missing message index");
    var (_, buf2) := ParseIndex(r.IsSequenced(), buf1, "Frame missing sequence index").value;
    ParseIndexExtends(r.IsSequenced(), buf1, tail, "Frame missing sequence index");
    var (_, _, buf3) := ParseOrder(r.IsOrdered(), buf2).value;
    ParseOrderExtends(r.IsOrdered(), buf2, tail);
    var (_, buf4) := ParseSplit(isSplit, buf3).value;
    ParseSplitExtends(isSplit, buf3, tail);
    PayloadExtends(buf4, tail, length);
  }

  lemma PayloadExtends(buf: Data, tail: Data, length: nat)
    requires length <= |buf|
    ensures (buf + tail)[..length] == buf[..length] && (buf + tail)[length..] == buf[length..] + tail
  {
  }

  /** A frame that has been read is read in the same way with more bytes behind it. */
  lemma ParseFrameExtends(buf: Data, tail: Data)
    requires ParseFrame(buf).Ok?
    ensures ParseFrame(buf + tail) == Ok((ParseFrame(buf).value.0, ParseFrame(buf).value.1 + tail))
  {
    assert (buf + tail)[1..3] == buf[1..3] && (buf + tail)[3..] == buf[3..] + tail;
    ParseBodyExtends(ReliabilityFromU8(buf[0] / 0x20).value, buf[0] / 0x10 % 2 == 1,
                     LengthBytes(ReadU16Be(buf[1..3])), buf[3..], tail);
  }

  /** So no frame can be read from a proper prefix of its bytes. */
  lemma CutFrameRefused(f: Frame, k: nat)
    requires |f.payload| <= 8191 && k < |FrameBytes(f)|
    ensures ParseFrame(FrameBytes(f)[..k]).Err? && (k > 0 ==> ParseAll(FrameBytes(f)[..k]).0 == [])
  {
    var bytes := FrameBytes(f);
    assert bytes[..k] + bytes[k..] == bytes + [];
    NothingLeft(f.payload, []);
    ParseFrameBytes(f, []);
    if ParseFrame(bytes[..k]).Ok? {
      ParseFrameExtends(bytes[..k], bytes[k..]);
    }
  }

  ghost predicate AllFit(fs: seq<Frame>) {
    forall i :: 0 <= i < |fs| ==> |fs[i].payload| <= 8191
  }

  function CarriedAll(fs: seq<Frame>): seq<Frame> {
    if fs == [] then [] else [Carried(fs[0])] + CarriedAll(fs[1..])
  }

  lemma ParseFittingFrame(f: Frame, tail: seq<byte>)
    requires |f.payload| <= 8191
    ensures ParseFrame(FrameBytes(f) + tail) == Ok((Carried(f), tail))
    ensures FrameBytes(f) + tail != []
  {
    NothingLeft(f.payload, tail);
    ParseFrameBytes(f, tail);
  }

  /** The receive loop recovers every list of frames from its concatenated encodings. */
  lemma {:induction false} FramesRoundTrip(fs: seq<Frame>)
    requires AllFit(fs)
    ensures ParseAll(FramesBytes(fs)) == (CarriedAll(fs), None)
  {
    if fs != [] {
      FramesRoundTrip(fs[1..]);
      ParseFittingFrame(fs[0], FramesBytes(fs[1..]));
    }
  }

  // ----- any bytes whatever -----

  lemma IndexParsed(present: bool, buf: Data, missing: string)
    requires ParseIndex(present, buf, missing).Ok?
    ensures var (index, rest) := ParseIndex(present, buf, missing).value;
            (index.Some? <==> present) && IndexBytes(present, index) + rest == buf
  {
    assert present ==> buf == buf[..3] + buf[3..];
  }

  lemma OrderParsed(present: bool, buf: Data)
    requires ParseOrder(present, buf).Ok?
    ensures var (index, channel, rest) := ParseOrder(present, buf).value;
            (index.Some? <==> present) && (!present ==> channel == 0) && OrderBytes(present, index, channel) + rest == buf
  {
    assert present ==> buf == buf[..3] + [buf[3]] + buf[4..];
  }

  lemma SplitParsed(present: bool, buf: Data)
    requires ParseSplit(present, buf).Ok?
    ensures var (split, rest) := ParseSplit(present, buf).value;
            (split.Some? <==> present) && SplitBytes(split) + rest == buf
  {
    if present {
      assert buf == buf[..4] + buf[4..][..2] + buf[6..][..4] + buf[10..];
    }
  }

  /** The fields that the reliability calls for are there, and no others. */
  predicate FieldsFit(f: Frame) {
    && (f.messageIndex.Some? <==> f.reliability.IsReliable()) && (f.sequenceIndex.Some? <==> f.reliability.IsSequenced())
    && (f.orderIndex.Some? <==> f.reliability.IsOrdered()) && (!f.reliability.IsOrdered() ==> f.orderChannel == 0)
  }

  /** The fields of a frame, read one after the other, are those that were written. */
  lemma BodyJoined(f: Frame, buf: Data, buf1: Data, buf2: Data, buf3: Data, buf4: Data, rest: Data)
    requires ParseIndex(f.reliability.IsReliable(), buf, "Frame missing message index") == Ok((f.messageIndex, buf1))
    requires ParseIndex(f.reliability.IsSequenced(), buf1, "Frame missing sequence index") == Ok((f.sequenceIndex, buf2))
    requires ParseOrder(f.reliability.IsOrdered(), buf2) == Ok((f.orderIndex, f.orderChannel, buf3))
    requires ParseSplit(f.split.Some?, buf3) == Ok((f.split, buf4)) && f.payload + rest == buf4
    ensures FieldsFit(f) && BodyBytes(f) + rest == buf
  {
    IndexParsed(f.reliability.IsReliable(), buf, "Frame missing message index");
    IndexParsed(f.reliability.IsSequenced(), buf1, "Frame missing sequence index");
    OrderParsed(f.reliability.IsOrdered(), buf2);
    SplitParsed(f.split.Some?, buf3);
    BodyNested(f, rest);
  }

  lemma SplitPresent(present: bool, buf: Data)
    requires ParseSplit(present, buf).Ok?
    ensures ParseSplit(present, buf).value.0.Some? <==> present
  {
  }

  lemma BodyStages(r: Reliability, isSplit: bool, length: nat, buf: Data)
    returns (buf1: Data, buf2: Data, buf3: Data, buf4: Data)
    requires ParseBody(r, isSplit, length, buf).Ok?
    ensures var (f, rest) := ParseBody(r, isSplit, length, buf).value;
            && ParseIndex(r.IsReliable(), buf, "Frame missing message index") == Ok((f.messageIndex, buf1))
            && ParseIndex(r.IsSequenced(), buf1, "Frame missing sequence index") == Ok((f.sequenceIndex, buf2))
            && ParseOrder(r.IsOrdered(), buf2) == Ok((f.orderIndex, f.orderChannel, buf3))
            && ParseSplit(isSplit, buf3) == Ok((f.split, buf4)) && (f.split.Some? <==> isSplit)
            && f.reliability == r && |f.payload| == length && f.payload + rest == buf4
  {
    buf1 := ParseIndex(r.IsReliable(), buf, "Frame missing message index").value.1;
    buf2 := ParseIndex(r.IsSequenced(), buf1, "Frame missing sequence index").value.1;
    buf3 := ParseOrder(r.IsOrdered(), buf2).value.2;
    buf4 := ParseSplit(isSplit, buf3).value.1;
    SplitPresent(isSplit, buf3);
    assert buf4 == buf4[..length] + buf4[length..];
  }

  lemma BodyParsed(r: Reliability, isSplit: bool, length: nat, buf: Data)
    requires ParseBody(r, isSplit, length, buf).Ok?
    ensures var (f, rest) := ParseBody(r, isSplit, length, buf).value;
            && f.reliability == r && (f.split.Some? <==> isSplit) && |f.payload| == length && FieldsFit(f)
            && BodyBytes(f) + rest == buf
  {
    var (f, rest) := ParseBody(r, isSplit, length, buf).value;
    var buf1, buf2, buf3, buf4 := BodyStages(r, isSplit, length, buf);
    BodyJoined(f, buf, buf1, buf2, buf3, buf4, rest);
  }

  lemma HeadWritten(f: Frame, b: Data)
    requires |b| == 3 && b[0] % 0x10 == 0 && Flags(f) == b[0]
    requires LengthBits(f.payload) == b[1] as int * 0x100 + b[2] as int
    ensures HeadBytes(f) == b
  {
  }

  lemma WholeLength(payload: Data, bits: u16)
    requires bits % 8 == 0 && |payload| == LengthBytes(bits)
    ensures LengthBits(payload) == bits
  {
  }

  /** A frame is read from its flags, its length and its body. */
  lemma FrameStages(buf: Data)
    requires ParseFrame(buf).Ok?
    ensures var (f, rest) := ParseFrame(buf).value;
            && |buf| >= 3 && buf == buf[..3] + (BodyBytes(f) + rest) && FieldsFit(f)
            && f.reliability.ToU8() == buf[0] / 0x20 && (f.split.Some? <==> buf[0] / 0x10 % 2 == 1)
            && |f.payload| == LengthBytes(ReadU16Be(buf[1..3]))
  {
    var r := ReliabilityFromU8(buf[0] / 0x20).value;
    BodyParsed(r, buf[0] / 0x10 % 2 == 1, LengthBytes(ReadU16Be(buf[1..3])), buf[3..]);
    assert buf == buf[..3] + buf[3..];
  }

  lemma LengthRead(bits: u16)
    ensures LengthBytes(bits) == if bits <= 65528 then (bits + 7) / 8 else 0
  {
  }

  lemma HeadRead(f: Frame, b: Data)
    requires |b| == 3 && f.reliability.ToU8() == b[0] / 0x20 && (f.split.Some? <==> b[0] / 0x10 % 2 == 1)
    requires |f.payload| == LengthBytes(ReadU16Be(b[1..3]))
    ensures var bits := b[1] as int * 0x100 + b[2] as int;
            && Flags(f) == b[0] - b[0] % 0x10 && b[0] < 0xA0
            && |f.payload| == (if bits <= 65528 then (bits + 7) / 8 else 0)
            && (b[0] % 0x10 == 0 && bits % 8 == 0 ==> HeadBytes(f) == b)
  {
    FlagsWritten(f, b[0]);
    var bits := ReadU16Be(b[1..3]);
    LengthRead(bits);
    if b[0] % 0x10 == 0 && bits % 8 == 0 {
      WholeLength(f.payload, bits);
      HeadWritten(f, b);
    }
  }

  lemma FrameJoined(f: Frame, rest: Data)
    ensures FrameBytes(f) + rest == HeadBytes(f) + (BodyBytes(f) + rest)
  {
  }

  /** Whatever bytes a frame is read from, writing it again gives the bytes that were read: after
      the flags and the length in any case, and as a whole if the unused flags are zero and the
      length is a number of whole bytes. */
  lemma ParsedFrameBytes(buf: Data)
    requires ParseFrame(buf).Ok?
    ensures var (f, rest) := ParseFrame(buf).value;
            var bits := buf[1] as int * 0x100 + buf[2] as int;
            && buf == buf[..3] + (BodyBytes(f) + rest) && FieldsFit(f)
            && Flags(f) == buf[0] - buf[0] % 0x10 && buf[0] < 0xA0
            && |f.payload| == (if bits <= 65528 then (bits + 7) / 8 else 0)
            && (buf[0] % 0x10 == 0 && bits % 8 == 0 ==> FrameBytes(f) + rest == buf)
  {
    var (f, rest) := ParseFrame(buf).value;
    FrameStages(buf);
    assert buf[..3][1..3] == buf[1..3];
    HeadRead(f, buf[..3]);
    if HeadBytes(f) == buf[..3] {
      FrameJoined(f, rest);
    }
  }

  lemma FlagsWritten(f: Frame, b0: byte)
    requires f.reliability.ToU8() == b0 / 0x20 && (f.split.Some? <==> b0 / 0x10 % 2 == 1)
    ensures Flags(f) == b0 - b0 % 0x10 && b0 < 0xA0
  {
    assert b0 / 0x10 == b0 / 0x20 * 2 + b0 / 0x10 % 2;
  }

  /** The bytes that a frame needs, by its first three bytes. */
  function NeededBytes(b0: byte, bits: u16): nat {
    3 + (if b0 / 0x20 == 0 then 0 else if b0 / 0x20 <= 2 then 3 else if b0 / 0x20 == 3 then 7 else 10)
    + (if b0 / 0x10 % 2 == 1 then 10 else 0)
    + (if bits <= 65528 then (bits + 7) / 8 else 0)
  }

  /** The length of what stands before the payload in a body. */
  function FieldsLength(r: Reliability, isSplit: bool): nat {
    (if r.IsReliable() then 3 else 0) + (if r.IsSequenced() then 3 else 0) + (if r.IsOrdered() then 4 else 0)
    + if isSplit then 10 else 0
  }

  lemma BodyReadExactly(r: Reliability, isSplit: bool, length: nat, buf: Data)
    ensures ParseBody(r, isSplit, length, buf).Ok? <==> |buf| >= FieldsLength(r, isSplit) + length
  {
  }

  lemma FieldsOf(b0: byte)
    ensures ReliabilityFromU8(b0 / 0x20).Some? <==> b0 < 0xA0
    ensures b0 < 0xA0 ==>
              FieldsLength(ReliabilityFromU8(b0 / 0x20).value, b0 / 0x10 % 2 == 1) + 3 == NeededBytes(b0, 0)
  {
    if b0 < 0xA0 {
      var r := ReliabilityFromU8(b0 / 0x20).value;
      assert r.ToU8() == b0 / 0x20;
    } else {
      assert b0 / 0x20 >= 5;
    }
  }

  /** A frame is read from any bytes whatever that begin with a known reliability and are as many
      as flags and length say, and from no others; unused flags and bits do not matter. */
  lemma ReadExactly(buf: Data)
    ensures ParseFrame(buf).Ok? <==>
              |buf| >= 3 && buf[0] < 0xA0 && |buf| >= NeededBytes(buf[0], buf[1] as int * 0x100 + buf[2] as int)
  {
    if |buf| >= 3 {
      FieldsOf(buf[0]);
      var bits := ReadU16Be(buf[1..3]);
      LengthRead(bits);
      if buf[0] < 0xA0 {
        BodyReadExactly(ReliabilityFromU8(buf[0] / 0x20).value, buf[0] / 0x10 % 2 == 1, LengthBytes(bits), buf[3..]);
      }
    }
  }

  /** A datagram is read from any four bytes or more whose first one has the high bits 100. */
  lemma DatagramReadExactly(data: Data)
    ensures ParseDatagram(data).Ok? <==> |data| >= 4 && 0x80 <= data[0] < 0xA0
  {
  }

  function LittleEndian(x: u24): Data {
    [x % 0x100, x / 0x100 % 0x100, x / 0x1_0000]
  }

  /** The layout of the frames that the sender uses, byte by byte. */
  lemma FrameLayout(f: Frame, m: u24, o: u24)
    requires f.reliability == ReliableOrdered && f.messageIndex == Some(m) && f.orderIndex == Some(o)
    requires |f.payload| <= 8191
    ensures var bits := 8 * |f.payload|;
            var head := [bits / 0x100, bits % 0x100] + LittleEndian(m) + LittleEndian(o) + [f.orderChannel];
            FrameBytes(f) == match f.split
                             case None => [0x60] + head + f.payload
                             case Some(s) =>
                               [0x70] + head
                               + [s.count / 0x100_0000, s.count / 0x1_0000 % 0x100, s.count / 0x100 % 0x100, s.count % 0x100]
                               + [s.id / 0x100, s.id % 0x100]
                               + [s.index / 0x100_0000, s.index / 0x1_0000 % 0x100, s.index / 0x100 % 0x100, s.index % 0x100]
                               + f.payload
  {
    LittleEndianIs(m);
    LittleEndianIs(o);
    assert LengthBits(f.payload) == 8 * |f.payload|;
    if f.split.Some? {
      BigEndianIs(f.split.value.count);
      BigEndianIs(f.split.value.index);
    }
  }

  lemma LittleEndianIs(x: u24)
    ensures U24Le(x) == LittleEndian(x)
  {
  }

  lemma BigEndianIs(x: u32)
    ensures U32Be(x) == [x / 0x100_0000, x / 0x1_0000 % 0x100, x / 0x100 % 0x100, x % 0x100]
  {
    var hi, lo := x / 0x1_0000, x % 0x1_0000;
    assert hi / 0x100 == x / 0x100_0000;
    assert x / 0x100 == hi * 0x100 + lo / 0x100;
  }

  /** And of frames with all three indices. */
  lemma SequencedLayout(f: Frame, m: u24, q: u24, o: u24)
    requires f.reliability == ReliableSequenced && f.messageIndex == Some(m) && f.sequenceIndex == Some(q)
    requires f.orderIndex == Some(o) && f.split.None?
    ensures FrameBytes(f)[3..] == LittleEndian(m) + LittleEndian(q) + LittleEndian(o) + [f.orderChannel] + f.payload
  {
    LittleEndianIs(m);
    LittleEndianIs(q);
    LittleEndianIs(o);
  }

  /** The first byte of each kind of frame, and the length of its header. */
  lemma HeaderSizes(f: Frame)
    ensures var extra := if f.split.Some? then 10 else 0;
            (FrameBytes(f)[0] - (if f.split.Some? then 0x10 else 0), |FrameBytes(f)| - |f.payload| - extra)
            == match f.reliability
               case Unreliable => (0x00, 3)
               case UnreliableSequenced => (0x20, 6)
               case Reliable => (0x40, 6)
               case ReliableOrdered => (0x60, 10)
               case ReliableSequenced => (0x80, 13)
  {
  }

  // ----- datagrams -----

  function Concat(parts: seq<Data>): Data {
    if parts == [] then [] else Concat(parts[..|parts| - 1]) + parts[|parts| - 1]
  }

  function DatagramBytes(number: u24, frames: Data): Data {
    [0x84] + U24Le(number) + frames
  }

  predicate IsDatagram(id: byte) {
    id / 0x80 % 2 == 1 && id / 0x40 % 2 == 0 && id / 0x20 % 2 == 0
  }

  /** The sequence number and the bytes that the program treats as the frames: the three bytes
      of the number are read but not skipped. */
  function ParseDatagram(data: Data): Result<(u24, Data)> {
    if |data| < 4 then Err(InvalidPacket("Datagram too short"))
    else if !IsDatagram(data[0]) then Err(InvalidPacket("Not a datagram packet"))
    else Ok((ReadU24Le(data[1..]), data[1..]))
  }

  lemma DatagramLayout(number: u24, frames: Data)
    ensures DatagramBytes(number, frames) == [0x84] + LittleEndian(number) + frames
  {
    LittleEndianIs(number);
  }

  /** Decoding a datagram gives its number, and never the frames that were put in: they come
      with the bytes of the number in front. */
  lemma DatagramKeepsNumber(number: u24, frames: Data)
    ensures ParseDatagram(DatagramBytes(number, frames)) == Ok((number, U24Le(number) + frames))
    ensures ParseDatagram(DatagramBytes(number, frames)) != Ok((number, frames))
  {
    var data := DatagramBytes(number, frames);
    assert data[1..] == U24Le(number) + frames;
    ReadAfterWrite(number, frames);
    assert |U24Le(number) + frames| != |frames|;
  }

  const EMPTY_FRAME := Frame(Unreliable, None, None, None, 0, None, [])

  /** The payload length that the second and third byte of the number announce. */
  function NumberLength(number: u24): nat {
    LengthBytes(number / 0x100 % 0x100 * 0x100 + number / 0x1_0000)
  }

  /** The three bytes of the number read as an empty unreliable frame. */
  predicate ReadsAsEmptyFrame(number: u24) {
    number % 0x100 < 0x10 && NumberLength(number) == 0
  }

  /** What the parser makes of the bytes of a number and what follows them. */
  lemma NumberRead(number: u24, frames: Data)
    ensures ParseFrame(U24Le(number) + frames)
         == match ReliabilityFromU8(number % 0x100 / 0x20)
            case None => Err(InvalidPacket("Invalid reliability: " + Decimal(number % 0x100 / 0x20)))
            case Some(r) => ParseBody(r, number % 0x100 / 0x10 % 2 == 1, NumberLength(number), frames)
  {
    NumberParts(number, frames);
  }

  lemma NumberParts(number: u24, frames: Data)
    ensures var buf := U24Le(number) + frames;
            && buf[3..] == frames && buf[0] == number % 0x100
            && LengthBytes(ReadU16Be(buf[1..3])) == NumberLength(number)
  {
    var buf := U24Le(number) + frames;
    assert buf[1..3] == [number / 0x100 % 0x100, number / 0x1_0000];
    assert ReadU16Be(buf[1..3]) == number / 0x100 % 0x100 * 0x100 + number / 0x1_0000;
  }

  /** An empty frame is read only under the flags and length of one. */
  lemma EmptyBody(r: Reliability, isSplit: bool, length: nat, buf: Data)
    ensures ParseBody(r, isSplit, length, buf) == Ok((EMPTY_FRAME, buf)) <==> r == Unreliable && !isSplit && length == 0
    ensures ParseBody(r, isSplit, length, buf).Ok? && ParseBody(r, isSplit, length, buf).value.0 == EMPTY_FRAME
            ==> r == Unreliable && !isSplit && length == 0
  {
  }

  lemma FlagBits(b0: byte)
    ensures ReliabilityFromU8(b0 / 0x20) == Some(Unreliable) && b0 / 0x10 % 2 == 0 <==> b0 < 0x10
  {
    assert b0 / 0x10 % 2 == b0 / 0x10 - b0 / 0x20 * 2;
  }

  lemma EmptyFirst(number: u24, tail: Data)
    ensures ReadsAsEmptyFrame(number) ==> ParseFrame(U24Le(number) + tail) == Ok((EMPTY_FRAME, tail))
    ensures ParseFrame(U24Le(number) + tail).Ok? && ParseFrame(U24Le(number) + tail).value.0 == EMPTY_FRAME
            ==> ReadsAsEmptyFrame(number)
  {
    NumberRead(number, tail);
    FlagBits(number % 0x100);
    match ReliabilityFromU8(number % 0x100 / 0x20)
    case None =>
    case Some(r) => EmptyBody(r, number % 0x100 / 0x10 % 2 == 1, NumberLength(number), tail);
  }

  lemma FirstOfAll(buf: Data, f: Frame)
    requires buf != []
    ensures ParseAll(buf).0 != [] && ParseAll(buf).0[0] == f <==> ParseFrame(buf).Ok? && ParseFrame(buf).value.0 == f
    ensures ParseFrame(buf).Ok? ==>
              var rest := ParseFrame(buf).value.1;
              ParseAll(buf) == ([ParseFrame(buf).value.0] + ParseAll(rest).0, ParseAll(rest).1)
  {
  }

  /** Any list of frames sent under a number gets through the program's own decoder, behind an
      empty frame that the receiver ignores, if and only if the bytes of that number happen to
      read as an empty frame. */
  lemma WireDeliversExactly(number: u24, fs: seq<Frame>)
    requires AllFit(fs)
    ensures ParseDatagram(DatagramBytes(number, FramesBytes(fs))) == Ok((number, U24Le(number) + FramesBytes(fs)))
    ensures ParseAll(U24Le(number) + FramesBytes(fs)) == ([EMPTY_FRAME] + CarriedAll(fs), None)
            <==> ReadsAsEmptyFrame(number)
  {
    var tail := FramesBytes(fs);
    DatagramKeepsNumber(number, tail);
    EmptyFirst(number, tail);
    FirstOfAll(U24Le(number) + tail, EMPTY_FRAME);
    FramesRoundTrip(fs);
    assert ([EMPTY_FRAME] + CarriedAll(fs))[0] == EMPTY_FRAME;
  }

  /** These are the numbers 0 to 15, and from 0xF9FF00 on those whose two low bytes are
      0xFF00 to 0xFF0F, where the rounding of the length wraps to zero. */
  lemma NumbersThatDeliver(number: u24)
    ensures ReadsAsEmptyFrame(number) <==>
              number < 16 || (number >= 0xF9_FF00 && 0xFF00 <= number % 0x1_0000 < 0xFF10)
  {
    var b0, b1, b2 := number % 0x100, number / 0x100 % 0x100, number / 0x1_0000;
    assert number == b0 + b1 * 0x100 + b2 * 0x1_0000;
    assert number % 0x1_0000 == b0 + b1 * 0x100;
    ZeroLength(b1, b2);
  }

  lemma ZeroLength(b1: byte, b2: byte)
    ensures LengthBytes(b1 * 0x100 + b2) == 0 <==> (b1 == 0 && b2 == 0) || (b1 == 0xFF && b2 >= 0xF9)
  {
    var bits := b1 * 0x100 + b2;
    if bits + 7 < 0x1_0000 {
      assert AsU16(bits + 7) == bits + 7;
    } else {
      assert AsU16(bits + 7) == bits + 7 - 0x1_0000;
    }
  }

  /** Under the other numbers with a low byte below 16 the first frame that is read is made of
      the leading bytes of the real frames: their headers are taken for a payload. */
  lemma HeaderTakenForPayload(number: u24, frames: Data)
    requires number % 0x100 < 0x10
    ensures ParseFrame(U24Le(number) + frames)
         == if NumberLength(number) > |frames| then Err(PayloadTruncated(NumberLength(number), |frames|))
            else Ok((EMPTY_FRAME.(payload := frames[..NumberLength(number)]), frames[NumberLength(number)..]))
  {
    NumberRead(number, frames);
    FlagBits(number % 0x100);
  }

  /** The three bytes of the number read as the head of an empty split frame. */
  predicate ReadsAsEmptySplit(number: u24) {
    0x10 <= number % 0x100 < 0x20 && NumberLength(number) == 0
  }

  lemma SplitBits(b0: byte)
    ensures ReliabilityFromU8(b0 / 0x20) == Some(Unreliable) && b0 / 0x10 % 2 == 1 <==> 0x10 <= b0 < 0x20
  {
    assert b0 / 0x10 % 2 == b0 / 0x10 - b0 / 0x20 * 2;
  }

  /** A single ordered frame has ten bytes of header before its payload. */
  lemma TenBytes(f: Frame)
    requires f.reliability == ReliableOrdered && f.split.None?
    ensures |FrameBytes(f)| == 10 + |f.payload| && FrameBytes(f)[10..] == f.payload
  {
  }

  /** Under such a number, 16 to 31 for instance, the header of an ordinary frame is taken for
      the split information of an empty one, and its payload is parsed as frames. */
  lemma PayloadTakenForFrames(number: u24, f: Frame)
    requires ReadsAsEmptySplit(number) && f.reliability == ReliableOrdered && f.split.None?
    ensures var (fs, e) := ParseAll(U24Le(number) + FrameBytes(f));
            && fs != [] && fs[0].payload == [] && fs[0].split.Some?
            && fs[1..] == ParseAll(f.payload).0 && e == ParseAll(f.payload).1
  {
    var bytes := FrameBytes(f);
    NumberRead(number, bytes);
    SplitBits(number % 0x100);
    TenBytes(f);
    assert bytes[10..][..0] == [] && bytes[10..][0..] == f.payload;
    var parsed := ParseFrame(U24Le(number) + bytes);
    assert parsed.Ok? && parsed.value.0.payload == [] && parsed.value.0.split.Some? && parsed.value.1 == f.payload;
    FirstOfAll(U24Le(number) + bytes, parsed.value.0);
  }

  /** With other numbers a whole datagram can be lost without a trace of its frames. */
  lemma DatagramLost(number: u24, frames: Data)
    requires number % 0x100 >= 0xa0
    ensures ParseAll(U24Le(number) + frames)
         == ([], Some(InvalidPacket("Invalid reliability: " + Decimal(number % 0x100 / 0x20))))
  {
    NumberRead(number, frames);
  }

  // ----- step by step -----

  method EncodedSize(f: Frame) returns (size: nat)
    ensures size == |FrameBytes(f)|
  {
    size := 1;
    size := size + 2;
    if f.reliability.IsReliable() {
      size := size + 3;
    }
    if f.reliability.IsSequenced() {
      size := size + 3;
    }
    if f.reliability.IsOrdered() {
      size := size + 4;
    }
    if f.split.Some? {
      size := size + 10;
    }
    size := size + |f.payload|;
  }

  method PutIndex(index: Option<u24>, buf: Buffer)
    modifies buf
    ensures buf.data == old(buf.data) + IndexBytes(true, index)
  {
    if index.Some? {
      PutU24(buf, index.value);
    } else {
      buf.PutU8(0);
      buf.PutU8(0);
      buf.PutU8(0);
    }
  }

  method EncodeFrame(f: Frame, buf: Buffer)
    modifies buf
    ensures buf.data == old(buf.data) + FrameBytes(f)
  {
    var flags := f.reliability.ToU8() as int * 0x20;
    if f.split.Some? {
      flags := flags + 0x10;
    }
    buf.PutU8(flags);
    buf.PutSlice(U16Be(LengthBits(f.payload)));
    EncodeBody(f, buf);
  }

  method EncodeBody(f: Frame, buf: Buffer)
    modifies buf
    ensures buf.data == old(buf.data) + BodyBytes(f)
  {
    ghost var was := buf.data;
    ghost var message := IndexBytes(f.reliability.IsReliable(), f.messageIndex);
    ghost var sequence := IndexBytes(f.reliability.IsSequenced(), f.sequenceIndex);
    ghost var order := OrderBytes(f.reliability.IsOrdered(), f.orderIndex, f.orderChannel);
    ghost var split := SplitBytes(f.split);
    if f.reliability.IsReliable() {
      PutIndex(f.messageIndex, buf);
    }
    assert buf.data == was + message;
    if f.reliability.IsSequenced() {
      PutIndex(f.sequenceIndex, buf);
    }
    assert buf.data == was + message + sequence;
    if f.reliability.IsOrdered() {
      PutIndex(f.orderIndex, buf);
      buf.PutU8(f.orderChannel);
    }
    OrderAppended(was + message + sequence, f);
    assert buf.data == was + message + sequence + order;
    if f.split.Some? {
      PutSplit(f.split.value, buf);
    }
    assert buf.data == was + message + sequence + order + split;
    buf.PutSlice(f.payload);
    Flatten(was, message, sequence, order, split, f.payload);
  }

  lemma OrderAppended(was: Data, f: Frame)
    ensures f.reliability.IsOrdered() ==>
              was + IndexBytes(true, f.orderIndex) + [f.orderChannel]
              == was + OrderBytes(true, f.orderIndex, f.orderChannel)
    ensures !f.reliability.IsOrdered() ==> was + OrderBytes(false, f.orderIndex, f.orderChannel) == was
  {
  }

  lemma Flatten(was: Data, a: Data, b: Data, c: Data, d: Data, e: Data)
    ensures was + a + b + c + d + e == was + (a + b + c + d + e)
  {
  }

  method PutSplit(split: SplitInfo, buf: Buffer)
    modifies buf
    ensures buf.data == old(buf.data) + SplitBytes(Some(split))
  {
    buf.PutSlice(U32Be(split.count));
    buf.PutSlice(U16Be(split.id));
    buf.PutSlice(U32Be(split.index));
  }

  /** On an error the caller drops the cursor, so nothing is said about where it stops. */
  method GetIndex(present: bool, buf: Cursor, missing: string) returns (r: Result<Option<u24>>)
    modifies buf
    ensures match ParseIndex(present, old(buf.rest), missing)
            case Err(e) => r == Err(e)
            case Ok((index, rest)) => r == Ok(index) && buf.rest == rest
  {
    if !present {
      return Ok(None);
    }
    if |buf.rest| < 3 {
      return Err(InvalidPacket(missing));
    }
    var index := ReadU24Le(buf.rest);
    buf.Advance(3);
    return Ok(Some(index));
  }

  method GetOrder(present: bool, buf: Cursor) returns (r: Result<(Option<u24>, byte)>)
    modifies buf
    ensures match ParseOrder(present, old(buf.rest))
            case Err(e) => r == Err(e)
            case Ok((index, channel, rest)) => r == Ok((index, channel)) && buf.rest == rest
  {
    if !present {
      return Ok((None, 0));
    }
    if |buf.rest| < 4 {
      return Err(InvalidPacket("Frame missing order index"));
    }
    var index, channel := ReadU24Le(buf.rest), buf.rest[3];
    buf.Advance(4);
    return Ok((Some(index), channel));
  }

  method GetSplit(present: bool, buf: Cursor) returns (r: Result<Option<SplitInfo>>)
    modifies buf
    ensures match ParseSplit(present, old(buf.rest))
            case Err(e) => r == Err(e)
            case Ok((split, rest)) => r == Ok(split) && buf.rest == rest
  {
    if !present {
      return Ok(None);
    }
    if |buf.rest| < 10 {
      return Err(InvalidPacket("Frame missing split info"));
    }
    var split := SplitInfo(ReadU32Be(buf.rest), ReadU16Be(buf.rest[4..]), ReadU32Be(buf.rest[6..]));
    buf.Advance(10);
    return Ok(Some(split));
  }

  method DecodeBody(reliability: Reliability, isSplit: bool, length: nat, buf: Cursor) returns (r: Result<Frame>)
    modifies buf
    ensures match ParseBody(reliability, isSplit, length, old(buf.rest))
            case Err(e) => r == Err(e)
            case Ok((f, rest)) => r == Ok(f) && buf.rest == rest
  {
    var message := GetIndex(reliability.IsReliable(), buf, "Frame missing message index");
    if message.Err? {
      return Err(message.error);
    }
    var sequence := GetIndex(reliability.IsSequenced(), buf, "Frame missing sequence index");
    if sequence.Err? {
      return Err(sequence.error);
    }
    var order := GetOrder(reliability.IsOrdered(), buf);
    if order.Err? {
      return Err(order.error);
    }
    var split := GetSplit(isSplit, buf);
    if split.Err? {
      return Err(split.error);
    }
    if |buf.rest| < length {
      return Err(PayloadTruncated(length, |buf.rest|));
    }
    var payload := buf.rest[..length];
    buf.Advance(length);
    return Ok(Frame(reliability, message.value, sequence.value, order.value.0, order.value.1, split.value, payload));
  }

  method DecodeFrame(buf: Cursor) returns (r: Result<Frame>)
    modifies buf
    ensures match ParseFrame(old(buf.rest))
            case Err(e) => r == Err(e)
            case Ok((f, rest)) => r == Ok(f) && buf.rest == rest
  {
    if |buf.rest| < 3 {
      return Err(InvalidPacket("Frame too short"));
    }
    ghost var was := buf.rest;
    var flags := buf.GetU8();
    var level := ReliabilityFromU8(flags / 0x20);
    if level.None? {
      return Err(InvalidPacket("Invalid reliability: " + Decimal(flags / 0x20)));
    }
    assert buf.rest[..2] == was[1..3];
    var length := LengthBytes(ReadU16Be(buf.rest[..2]));
    buf.Advance(2);
    assert buf.rest == was[3..];
    r := DecodeBody(level.value, flags / 0x10 % 2 == 1, length, buf);
  }

  lemma ParseAllHead(buf: Data)
    requires buf != []
    ensures ParseAll(buf) == match ParseFrame(buf)
                             case Err(e) => ([], Some(e))
                             case Ok((f, rest)) => ([f] + ParseAll(rest).0, ParseAll(rest).1)
  {
  }

  lemma AppendOne(fs: seq<Frame>, f: Frame, more: seq<Frame>)
    ensures fs + ([f] + more) == (fs + [f]) + more
  {
  }

  /** One turn of the receive loop, after the frames `fs`. */
  lemma ParseAllStep(fs: seq<Frame>, buf: Data)
    requires buf != []
    ensures match ParseFrame(buf)
            case Err(e) => ParseAll(buf) == ([], Some(e)) && fs + ParseAll(buf).0 == fs
            case Ok((f, rest)) =>
              fs + ParseAll(buf).0 == (fs + [f]) + ParseAll(rest).0 && ParseAll(buf).1 == ParseAll(rest).1
  {
    ParseAllHead(buf);
    if ParseFrame(buf).Ok? {
      AppendOne(fs, ParseFrame(buf).value.0, ParseAll(ParseFrame(buf).value.1).0);
    } else {
      assert fs + [] == fs;
    }
  }

  /** The receive loop over the frame bytes of a datagram, collecting what it would handle. */
  method DecodeAll(data: Data) returns (fs: seq<Frame>, error: Option<Error>)
    ensures (fs, error) == ParseAll(data)
  {
    fs := [];
    var buf := new Cursor(data);
    while buf.rest != []
      invariant fs + ParseAll(buf.rest).0 == ParseAll(data).0
      invariant ParseAll(buf.rest).1 == ParseAll(data).1
      decreases |buf.rest|
    {
      ParseAllStep(fs, buf.rest);
      var f := DecodeFrame(buf);
      if f.Err? {
        return fs, Some(f.error);
      }
      fs := fs + [f.value];
    }
    assert fs + [] == fs;
    error := None;
  }

  method EncodeDatagram(number: u24, frames: seq<Data>) returns (data: Data)
    ensures data == DatagramBytes(number, Concat(frames))
  {
    var buf := new Buffer();
    buf.PutU8(0x84);
    buf.PutU8(number % 0x100);
    buf.PutU8(number / 0x100 % 0x100);
    buf.PutU8(number / 0x1_0000);
    for i := 0 to |frames|
      invariant buf.data == DatagramBytes(number, Concat(frames[..i]))
    {
      assert frames[..i + 1][..i] == frames[..i];
      buf.PutSlice(frames[i]);
    }
    assert frames[..|frames|] == frames;
    data := buf.data;
  }

  method DecodeDatagram(data: Data) returns (r: Result<(u24, Data)>)
    ensures r == ParseDatagram(data)
  {
    if |data| < 4 {
      return Err(InvalidPacket("Datagram too short"));
    }
    if !IsDatagram(data[0]) {
      return Err(InvalidPacket("Not a datagram packet"));
    }
    var buf := data[1..];
    var number := ReadU24Le(buf);
    return Ok((number, buf));
  }
}
