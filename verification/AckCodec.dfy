/**
 The ACK and NACK packets: a packet ID, a big-endian record count and the ranges of a list.
 The decoder rebuilds the list number by number through `AckRangeList.Insert`.
 */
module AckCodec {
  import opened Wrappers
  import opened Bytes
  import opened Uint24
  import opened AckRanges

  const ID_ACK: byte := 0xc0
  const ID_NACK: byte := 0xa0

  // ----- layout and meaning of packets -----

  function RangeBytes(r: AckRange): (s: seq<byte>)
    ensures |s| == r.EncodedSize()
  {
    match r
    case Single(x) => [1] + U24Le(x)
    case Range(start, end) => [0] + U24Le(start) + U24Le(end)
  }

  function RecordsBytes(rs: seq<AckRange>): seq<byte> {
    if rs == [] then [] else RangeBytes(rs[0]) + RecordsBytes(rs[1..])
  }

  /** The record count is truncated to 16 bits. */
  function PacketBytes(id: byte, rs: seq<AckRange>): seq<byte> {
    [id] + U16Be(AsU16(|rs|)) + RecordsBytes(rs)
  }

  /** One record and the bytes after it. */
  function ParseRange(buf: seq<byte>): Result<(AckRange, seq<byte>)> {
    if |buf| < 1 then Err(InvalidPacket("ACK range too short"))
    else if buf[0] == 1 then
      if |buf| < 4 then Err(InvalidPacket("ACK single range truncated"))
      else Ok((Single(ReadU24Le(buf[1..])), buf[4..]))
    else if buf[0] == 0 then
      if |buf| < 7 then Err(InvalidPacket("ACK range truncated"))
      else Ok((Range(ReadU24Le(buf[1..]), ReadU24Le(buf[4..])), buf[7..]))
    else Err(InvalidPacket("Invalid ACK range type: " + Decimal(buf[0])))
  }

  /** The first `n` records; bytes after them are not looked at. */
  function ParseRecords(n: nat, buf: seq<byte>): Result<seq<AckRange>> {
    if n == 0 then Ok([])
    else match ParseRange(buf)
      case Err(e) => Err(e)
      case Ok((r, rest)) =>
        match ParseRecords(n - 1, rest)
        case Err(e) => Err(e)
        case Ok(rs) => Ok([r] + rs)
  }

  /** The kind of a packet (true for an ACK) and its records as they stand in the bytes. */
  function ParsePacket(data: seq<byte>): Result<(bool, seq<AckRange>)> {
    if data == [] then Err(InvalidPacket("ACK/NACK packet empty"))
    else if data[0] != ID_ACK && data[0] != ID_NACK then Err(InvalidPacket("Not an ACK/NACK packet"))
    else if |data| < 3 then Err(InvalidPacket("ACK/NACK missing record count"))
    else match ParseRecords(ReadU16Be(data[1..]), data[3..])
      case Err(e) => Err(e)
      case Ok(rs) => Ok((data[0] == ID_ACK, rs))
  }

  function Span(lo: nat, hi: int): (xs: seq<u24>)
    requires hi < MODULUS
    ensures forall x: u24 :: x in xs <==> lo <= x <= hi
    decreases hi
  {
    if lo > hi then [] else Span(lo, hi - 1) + [hi]
  }

  /** The numbers of a record, in the order the decoder inserts them. */
  function Enumerated(r: AckRange): (xs: seq<u24>)
    ensures forall x: u24 :: x in xs <==> r.Contains(x)
  {
    match r
    case Single(x) => [x]
    case Range(start, end) =>
      if start <= end then Span(start, end) else Span(start, MODULUS - 1) + Span(0, end)
  }

  /** The list the decoder has built from records, on top of `rs`. */
  function Rebuilt(rs: seq<AckRange>, records: seq<AckRange>): seq<AckRange>
    decreases |records|
  {
    if records == [] then rs
    else Rebuilt(InsertedAll(rs, Enumerated(records[0])), records[1..])
  }

  // ----- what the decoder's list is -----

  /** For any records, wrapping or not, the list built is the canonical one for their union. */
  lemma {:induction false} RebuiltDenotes(rs: seq<AckRange>, records: seq<AckRange>)
    requires Canonical(rs)
    ensures Canonical(Rebuilt(rs, records))
    ensures forall x: u24 :: Covers(Rebuilt(rs, records), x) <==> Covers(rs, x) || Covers(records, x)
    decreases |records|
  {
    if records != [] {
      var rs' := InsertedAll(rs, Enumerated(records[0]));
      InsertedAllDenotes(rs, Enumerated(records[0]));
      RebuiltDenotes(rs', records[1..]);
      forall x: u24
        ensures Covers(Rebuilt(rs, records), x) <==> Covers(rs, x) || Covers(records, x)
      {
        CoversHead(records, x);
      }
    }
  }

  /** Rebuilding a canonical list gives it back. */
  lemma RebuiltCanonical(rs: seq<AckRange>)
    requires Canonical(rs)
    ensures Rebuilt([], rs) == rs
  {
    RebuiltDenotes([], rs);
    CanonicalUnique(Rebuilt([], rs), rs);
  }

  // ----- round trips -----

  lemma ParseRangeBytes(r: AckRange, tail: seq<byte>)
    ensures ParseRange(RangeBytes(r) + tail) == Ok((r, tail))
  {
    var buf := RangeBytes(r) + tail;
    match r
    case Single(x) =>
      assert buf[1..] == U24Le(x) + tail;
      ReadAfterWrite(x, tail);
    case Range(start, end) =>
      assert buf[1..] == U24Le(start) + (U24Le(end) + tail);
      assert buf[4..] == U24Le(end) + tail;
      ReadAfterWrite(start, U24Le(end) + tail);
      ReadAfterWrite(end, tail);
  }

  lemma {:induction false} ParseRecordsBytes(n: nat, rs: seq<AckRange>, tail: seq<byte>)
    requires n <= |rs|
    ensures ParseRecords(n, RecordsBytes(rs) + tail) == Ok(rs[..n])
  {
    if n > 0 {
      var rest := RecordsBytes(rs[1..]) + tail;
      assert ParseRange(RecordsBytes(rs) + tail) == Ok((rs[0], rest)) by {
        assert RecordsBytes(rs) + tail == RangeBytes(rs[0]) + rest;
        ParseRangeBytes(rs[0], rest);
      }
      ParseRecordsBytes(n - 1, rs[1..], tail);
      assert rs[..n] == [rs[0]] + rs[1..][..n - 1];
    }
  }

  /** What is decoded from the packet of a list: its kind and a prefix of its ranges. */
  lemma ParsePacketBytes(id: byte, rs: seq<AckRange>)
    requires id == ID_ACK || id == ID_NACK
    ensures ParsePacket(PacketBytes(id, rs)) == Ok((id == ID_ACK, rs[..AsU16(|rs|)]))
  {
    var data := PacketBytes(id, rs);
    assert data[1..] == U16Be(AsU16(|rs|)) + RecordsBytes(rs);
    assert data[1..][..2] == U16Be(AsU16(|rs|));
    assert data[3..] == RecordsBytes(rs) + [];
    ParseRecordsBytes(AsU16(|rs|), rs, []);
  }

  lemma RangeParsed(buf: seq<byte>)
    requires ParseRange(buf).Ok?
    ensures RangeBytes(ParseRange(buf).value.0) + ParseRange(buf).value.1 == buf
  {
    if buf[0] == 1 {
      assert buf == [1] + buf[1..][..3] + buf[4..];
    } else {
      assert buf == [0] + buf[1..][..3] + buf[4..][..3] + buf[7..];
    }
  }

  lemma {:induction false} RecordsParsed(n: nat, buf: seq<byte>)
    requires ParseRecords(n, buf).Ok?
    ensures var rs := ParseRecords(n, buf).value; |rs| == n && RecordsBytes(rs) <= buf
  {
    if n > 0 {
      var (r, rest) := ParseRange(buf).value;
      RangeParsed(buf);
      RecordsParsed(n - 1, rest);
      assert ParseRecords(n, buf).value[1..] == ParseRecords(n - 1, rest).value;
    }
  }

  lemma PacketParsed(data: seq<byte>)
    requires ParsePacket(data).Ok?
    ensures var (kind, records) := ParsePacket(data).value;
            |records| <= 0xFFFF && PacketBytes(if kind then 0xC0 else 0xA0, records) <= data
  {
    var n, records := ReadU16Be(data[1..]), ParsePacket(data).value.1;
    RecordsParsed(n, data[3..]);
    assert AsU16(|records|) == n;
    assert data[1..][..2] == data[1..3];
    assert data == [data[0]] + data[1..3] + data[3..];
  }

  lemma PacketReads(data: seq<byte>, id: byte, records: seq<AckRange>)
    requires (id == ID_ACK || id == ID_NACK) && |records| <= 0xFFFF && PacketBytes(id, records) <= data
    ensures ParsePacket(data) == Ok((id == ID_ACK, records))
  {
    var tail := data[|PacketBytes(id, records)|..];
    assert AsU16(|records|) == |records|;
    assert data == PacketBytes(id, records) + tail;
    assert data[1..][..2] == U16Be(|records|);
    assert data[3..] == RecordsBytes(records) + tail;
    ParseRecordsBytes(|records|, records, tail);
    assert records[..|records|] == records;
  }

  /** On any bytes whatever: a kind and records are read if and only if there are no more of them
      than 16 bits can count and the bytes begin with their packet. */
  lemma ParsedExactly(data: seq<byte>, kind: bool, records: seq<AckRange>)
    ensures ParsePacket(data) == Ok((kind, records)) <==>
              |records| <= 0xFFFF && PacketBytes(if kind then 0xC0 else 0xA0, records) <= data
  {
    var id: byte := if kind then 0xC0 else 0xA0;
    if ParsePacket(data).Ok? {
      PacketParsed(data);
    }
    if |records| <= 0xFFFF && PacketBytes(id, records) <= data {
      PacketReads(data, id, records);
    }
  }

  /** The layout of a packet with one record of either kind, byte by byte. */
  lemma PacketLayout(x: u24, y: u24)
    ensures PacketBytes(ID_ACK, [Single(x)]) == [0xC0, 0x00, 0x01, 0x01, x % 0x100, x / 0x100 % 0x100, x / 0x1_0000]
    ensures PacketBytes(ID_NACK, [Range(x, y)])
         == [0xA0, 0x00, 0x01, 0x00, x % 0x100, x / 0x100 % 0x100, x / 0x1_0000,
             y % 0x100, y / 0x100 % 0x100, y / 0x1_0000]
  {
    assert RecordsBytes([Single(x)]) == RangeBytes(Single(x)) + [];
    assert RecordsBytes([Range(x, y)]) == RangeBytes(Range(x, y)) + [];
  }

  /** The decoder's result on arbitrary bytes. */
  function Decoded(data: seq<byte>): Result<(bool, seq<AckRange>)> {
    match ParsePacket(data)
    case Err(e) => Err(e)
    case Ok((kind, records)) => Ok((kind, Rebuilt([], records)))
  }

  lemma CanonicalPrefix(rs: seq<AckRange>, n: nat)
    requires Canonical(rs) && n <= |rs|
    ensures Canonical(rs[..n])
  {
  }

  /** A packet loses exactly the ranges beyond the 16-bit count, silently. */
  lemma DecodedIsPrefix(id: byte, rs: seq<AckRange>)
    requires id == ID_ACK || id == ID_NACK
    requires Canonical(rs)
    ensures Decoded(PacketBytes(id, rs)) == Ok((id == ID_ACK, rs[..AsU16(|rs|)]))
  {
    ParsePacketBytes(id, rs);
    CanonicalPrefix(rs, AsU16(|rs|));
    RebuiltCanonical(rs[..AsU16(|rs|)]);
  }

  // ----- packets cut short -----

  lemma ParseRangeCut(r: AckRange, k: nat)
    requires k < |RangeBytes(r)|
    ensures ParseRange(RangeBytes(r)[..k]).Err?
  {
  }

  lemma RecordsLength(rs: seq<AckRange>)
    ensures |RecordsBytes(rs)| >= 4 * |rs|
  {
  }

  lemma RecordsFirst(rs: seq<AckRange>, n: nat)
    requires 0 < n <= |rs|
    ensures |RecordsBytes(rs[..n])| == |RangeBytes(rs[0])| + |RecordsBytes(rs[1..][..n - 1])|
  {
    assert rs[..n][1..] == rs[1..][..n - 1];
  }

  lemma CutRecords(r: AckRange, tail: seq<byte>, k: nat)
    requires k <= |RangeBytes(r) + tail|
    ensures k >= |RangeBytes(r)| ==> (RangeBytes(r) + tail)[..k] == RangeBytes(r) + tail[..k - |RangeBytes(r)|]
    ensures k < |RangeBytes(r)| ==> (RangeBytes(r) + tail)[..k] == RangeBytes(r)[..k]
  {
  }

  /** From the first `k` bytes of some records, `n` records are read if and only if there are as
      many and their bytes are among the `k`. */
  lemma {:induction false} ParseRecordsCut(n: nat, rs: seq<AckRange>, k: nat)
    requires k <= |RecordsBytes(rs)|
    ensures if n <= |rs| && |RecordsBytes(rs[..n])| <= k then ParseRecords(n, RecordsBytes(rs)[..k]) == Ok(rs[..n])
            else ParseRecords(n, RecordsBytes(rs)[..k]).Err?
    decreases n
  {
    if 0 < n && rs != [] {
      var size := |RangeBytes(rs[0])|;
      CutRecords(rs[0], RecordsBytes(rs[1..]), k);
      if n <= |rs| {
        RecordsFirst(rs, n);
      }
      if k < size {
        ParseRangeCut(rs[0], k);
      } else {
        ParseRangeBytes(rs[0], RecordsBytes(rs[1..])[..k - size]);
        ParseRecordsCut(n - 1, rs[1..], k - size);
        if n <= |rs| {
          assert rs[..n] == [rs[0]] + rs[1..][..n - 1];
        }
      }
    }
  }

  /** The length of a packet as the announced ranges need it. */
  function NeededBytes(rs: seq<AckRange>): nat {
    3 + |RecordsBytes(rs[..AsU16(|rs|)])|
  }

  lemma ParsePacketCut(id: byte, rs: seq<AckRange>, k: nat)
    requires (id == ID_ACK || id == ID_NACK) && 3 <= k <= |PacketBytes(id, rs)|
    ensures if NeededBytes(rs) <= k then ParsePacket(PacketBytes(id, rs)[..k]) == Ok((id == ID_ACK, rs[..AsU16(|rs|)]))
            else ParsePacket(PacketBytes(id, rs)[..k]).Err?
  {
    var data := PacketBytes(id, rs)[..k];
    assert data[1..][..2] == U16Be(AsU16(|rs|));
    assert data[3..] == RecordsBytes(rs)[..k - 3];
    ParseRecordsCut(AsU16(|rs|), rs, k - 3);
  }

  /** What the receive task makes of an encoded list: the announced ranges, if they lie within
      the 2048 bytes that it reads, and otherwise nothing at all. */
  lemma ReceivedDecoded(id: byte, rs: seq<AckRange>)
    requires (id == ID_ACK || id == ID_NACK) && Canonical(rs)
    ensures if NeededBytes(rs) <= 2048
            then Decoded(Received(PacketBytes(id, rs))) == Ok((id == ID_ACK, rs[..AsU16(|rs|)]))
            else Decoded(Received(PacketBytes(id, rs))).Err?
  {
    var packet, n := PacketBytes(id, rs), AsU16(|rs|);
    CanonicalPrefix(rs, n);
    RebuiltCanonical(rs[..n]);
    assert rs == rs[..n] + rs[n..];
    RecordsBytesConcat(rs[..n], rs[n..]);
    assert packet[..|packet|] == packet;
    ParsePacketCut(id, rs, if |packet| <= 2048 then |packet| else 2048);
  }

  lemma AllAnnounced(rs: seq<AckRange>)
    requires |rs| <= 0xFFFF
    ensures rs[..AsU16(|rs|)] == rs
  {
  }

  /** A packet of at most 2048 bytes is received whole. */
  lemma ReceivedShort(id: byte, rs: seq<AckRange>)
    requires (id == ID_ACK || id == ID_NACK) && Canonical(rs) && |PacketBytes(id, rs)| <= 2048
    ensures Decoded(Received(PacketBytes(id, rs))) == Ok((id == ID_ACK, rs))
  {
    RecordsLength(rs);
    AllAnnounced(rs);
    ReceivedDecoded(id, rs);
  }

  /** A longer one, unless it has more ranges than it can announce, is lost as a whole; so are
      512 ranges at once. */
  lemma ReceivedLong(id: byte, rs: seq<AckRange>)
    requires (id == ID_ACK || id == ID_NACK) && Canonical(rs) && |rs| <= 0xFFFF
    requires |PacketBytes(id, rs)| > 2048 || |rs| >= 512
    ensures Decoded(Received(PacketBytes(id, rs))).Err?
  {
    RecordsLength(rs);
    AllAnnounced(rs);
    ReceivedDecoded(id, rs);
  }

  lemma {:induction false} RecordsBytesConcat(rs: seq<AckRange>, ts: seq<AckRange>)
    ensures RecordsBytes(rs + ts) == RecordsBytes(rs) + RecordsBytes(ts)
  {
    if rs == [] {
      assert rs + ts == ts;
    } else {
      assert (rs + ts)[1..] == rs[1..] + ts;
      RecordsBytesConcat(rs[1..], ts);
    }
  }

  /** The round trip is exact if and only if the count fits its 16 bits. */
  lemma RoundTrip(id: byte, rs: seq<AckRange>)
    requires id == ID_ACK || id == ID_NACK
    requires Canonical(rs)
    ensures Decoded(PacketBytes(id, rs)) == Ok((id == ID_ACK, rs)) <==> |rs| <= 0xFFFF
  {
    DecodedIsPrefix(id, rs);
    if |rs| > 0xFFFF {
      assert |rs[..AsU16(|rs|)]| < |rs|;
    } else {
      assert rs[..AsU16(|rs|)] == rs;
    }
  }

  /** Whatever bytes are accepted, the list is canonical and denotes the union of the records,
      each read as a closed interval on the circle of 24-bit numbers. */
  lemma DecodedDenotes(data: seq<byte>)
    requires Decoded(data).Ok?
    ensures ParsePacket(data).Ok? && Canonical(Decoded(data).value.1)
    ensures forall x: u24 ::
              Covers(Decoded(data).value.1, x) <==> Covers(ParsePacket(data).value.1, x)
  {
    RebuiltDenotes([], ParsePacket(data).value.1);
  }

  // ----- encoding and decoding step by step -----

  lemma {:induction false} RecordsBytesAppend(rs: seq<AckRange>, r: AckRange)
    ensures RecordsBytes(rs + [r]) == RecordsBytes(rs) + RangeBytes(r)
  {
    if rs == [] {
      assert rs + [r] == [r];
    } else {
      assert (rs + [r])[1..] == rs[1..] + [r];
      RecordsBytesAppend(rs[1..], r);
    }
  }

  lemma RecordsBytesUpTo(head: seq<byte>, rs: seq<AckRange>, i: nat)
    requires i < |rs|
    ensures head + RecordsBytes(rs[..i + 1]) == (head + RecordsBytes(rs[..i])) + RangeBytes(rs[i])
  {
    assert rs[..i + 1] == rs[..i] + [rs[i]];
    RecordsBytesAppend(rs[..i], rs[i]);
  }

  method PutU24(buf: Buffer, x: u24)
    modifies buf
    ensures buf.data == old(buf.data) + U24Le(x)
  {
    var temp := new byte[3];
    WriteU24Le(temp, x);
    assert temp[..] == temp[..3];
    buf.PutSlice(temp[..]);
  }

  method EncodeRange(r: AckRange, buf: Buffer)
    modifies buf
    ensures buf.data == old(buf.data) + RangeBytes(r)
  {
    match r
    case Single(x) =>
      buf.PutU8(1);
      PutU24(buf, x);
    case Range(start, end) =>
      buf.PutU8(0);
      PutU24(buf, start);
      PutU24(buf, end);
  }

  method EncodeRanges(rs: seq<AckRange>, buf: Buffer)
    modifies buf
    ensures buf.data == old(buf.data) + RecordsBytes(rs)
  {
    for i := 0 to |rs|
      invariant buf.data == old(buf.data) + RecordsBytes(rs[..i])
    {
      RecordsBytesUpTo(old(buf.data), rs, i);
      EncodeRange(rs[i], buf);
    }
    assert rs[..|rs|] == rs;
  }

  method EncodePacket(id: byte, list: AckRangeList) returns (packet: seq<byte>)
    ensures packet == PacketBytes(id, list.ranges)
  {
    var buf := new Buffer();
    buf.PutU8(id);
    buf.PutSlice(U16Be(AsU16(|list.ranges|)));
    EncodeRanges(list.ranges, buf);
    packet := buf.data;
  }

  method EncodeAck(list: AckRangeList) returns (packet: seq<byte>)
    requires list.Valid()
    ensures Decoded(packet) == Ok((true, list.ranges[..AsU16(|list.ranges|)]))
    ensures packet == PacketBytes(ID_ACK, list.ranges)
  {
    packet := EncodePacket(ID_ACK, list);
    DecodedIsPrefix(ID_ACK, list.ranges);
  }

  method EncodeNack(list: AckRangeList) returns (packet: seq<byte>)
    requires list.Valid()
    ensures Decoded(packet) == Ok((false, list.ranges[..AsU16(|list.ranges|)]))
    ensures packet == PacketBytes(ID_NACK, list.ranges)
  {
    packet := EncodePacket(ID_NACK, list);
    DecodedIsPrefix(ID_NACK, list.ranges);
  }

  /** On an error the cursor stops behind the type byte, if there is one. */
  method DecodeRange(buf: Cursor) returns (r: Result<AckRange>)
    modifies buf
    ensures match ParseRange(old(buf.rest))
            case Err(e) => r == Err(e) && buf.rest == if old(buf.rest) == [] then [] else old(buf.rest)[1..]
            case Ok((range, rest)) => r == Ok(range) && buf.rest == rest
  {
    ghost var was := buf.rest;
    if |buf.rest| < 1 {
      return Err(InvalidPacket("ACK range too short"));
    }
    var rangeType := buf.GetU8();
    if rangeType == 1 {
      if |buf.rest| < 3 {
        return Err(InvalidPacket("ACK single range truncated"));
      }
      var x := ReadU24Le(buf.rest);
      buf.Advance(3);
      assert buf.rest == was[4..];
      return Ok(Single(x));
    } else if rangeType == 0 {
      if |buf.rest| < 6 {
        return Err(InvalidPacket("ACK range truncated"));
      }
      var start := ReadU24Le(buf.rest);
      buf.Advance(3);
      assert buf.rest == was[4..];
      var end := ReadU24Le(buf.rest);
      buf.Advance(3);
      assert buf.rest == was[7..];
      return Ok(Range(start, end));
    } else {
      return Err(InvalidPacket("Invalid ACK range type: " + Decimal(rangeType)));
    }
  }

  lemma {:induction false} InsertedAllAppend(rs: seq<AckRange>, xs: seq<u24>, ys: seq<u24>)
    ensures InsertedAll(rs, xs + ys) == InsertedAll(InsertedAll(rs, xs), ys)
    decreases |xs|
  {
    if xs == [] {
      assert xs + ys == ys;
    } else {
      assert (xs + ys)[1..] == xs[1..] + ys;
      InsertedAllAppend(Inserted(rs, xs[0]), xs[1..], ys);
    }
  }

  method InsertSpan(list: AckRangeList, lo: u24, hi: u24)
    requires list.Valid()
    modifies list
    ensures list.Valid()
    ensures list.ranges == InsertedAll(old(list.ranges), Span(lo, hi))
  {
    ghost var was := list.ranges;
    var x: int := lo;
    while x <= hi
      invariant lo <= x && (x <= hi + 1 || x == lo)
      invariant list.Valid()
      invariant list.ranges == InsertedAll(was, Span(lo, x - 1))
      decreases hi - x
    {
      list.Insert(x);
      InsertedAllAppend(was, Span(lo, x - 1), [x]);
      assert InsertedAll(InsertedAll(was, Span(lo, x - 1)), [x])
          == Inserted(InsertedAll(was, Span(lo, x - 1)), x);
      x := x + 1;
    }
    if lo > hi {
      assert Span(lo, hi) == [] == Span(lo, x - 1);
    }
  }

  method InsertRecord(list: AckRangeList, r: AckRange)
    requires list.Valid()
    modifies list
    ensures list.Valid()
    ensures list.ranges == InsertedAll(old(list.ranges), Enumerated(r))
  {
    match r
    case Single(x) =>
      list.Insert(x);
    case Range(start, end) =>
      if start <= end {
        InsertSpan(list, start, end);
      } else {
        InsertedAllAppend(list.ranges, Span(start, MODULUS - 1), Span(0, end));
        InsertSpan(list, start, 0xFF_FFFF);
        InsertSpan(list, 0, end);
      }
  }

  method DecodeAckNack(data: seq<byte>) returns (r: Result<(bool, AckRangeList)>)
    ensures match ParsePacket(data)
            case Err(e) => r == Err(e)
            case Ok((kind, records)) =>
              && r.Ok? && r.value.0 == kind && fresh(r.value.1) && r.value.1.Valid()
              && Decoded(data) == Ok((kind, r.value.1.ranges))
              && forall x: u24 :: Covers(r.value.1.ranges, x) <==> Covers(records, x)
  {
    if data == [] {
      return Err(InvalidPacket("ACK/NACK packet empty"));
    }
    var kind;
    if data[0] == ID_ACK {
      kind := true;
    } else if data[0] == ID_NACK {
      kind := false;
    } else {
      return Err(InvalidPacket("Not an ACK/NACK packet"));
    }
    var buf := new Cursor(data[1..]);
    if |buf.rest| < 2 {
      return Err(InvalidPacket("ACK/NACK missing record count"));
    }
    var recordCount := ReadU16Be(buf.rest);
    buf.Advance(2);
    assert buf.rest == data[3..];
    var list := new AckRangeList();
    ghost var all := ParseRecords(recordCount, data[3..]);
    for i := 0 to recordCount
      invariant list.Valid()
      invariant all.Err? ==> all == ParseRecords(recordCount - i, buf.rest)
      invariant all.Ok? ==> ParseRecords(recordCount - i, buf.rest).Ok?
      invariant all.Ok? ==>
                  Rebuilt(list.ranges, ParseRecords(recordCount - i, buf.rest).value) == Rebuilt([], all.value)
    {
      var record := DecodeRange(buf);
      if record.Err? {
        return Err(record.error);
      }
      InsertRecord(list, record.value);
    }
    RebuiltDenotes([], all.value);
    return Ok((kind, list));
  }
}
