/**
 One end of an established connection. `Sender` and `Receiver` are the values of its two
 halves, with a function for every step the program's tasks take; `Endpoint` is the shared
 state, whose methods take those steps in place.
 */
module Endpoints {
  import opened Wrappers
  import opened Bytes
  import opened Uint24
  import A = AckRanges
  import C = AckCodec
  import F = Frames
  import S = SendQueues
  import W = RecvWindows
  import O = OrderedChannels
  import G = Fragments
  import M = Metrics

  /** A datagram as a record of its number and its frames. */
  datatype Datagram = Datagram(number: u24, frames: seq<F.Frame>)

  // ----- sending -----

  /** The range of the program's size arithmetic, which wraps in a release build. */
  const WORD := 0x1_0000_0000_0000_0000

  /** The largest payload sent as a single frame. */
  function SingleSizeFor(mtu: u16): nat {
    if mtu >= 60 then mtu - 60 else WORD + mtu - 60
  }

  function ChunkSizeFor(mtu: u16): nat {
    if mtu >= 80 then mtu - 80 else WORD + mtu - 80
  }

  /** The number of chunks that is announced. */
  function Announced(length: nat, size: nat): u32
    requires size > 0
  {
    AsU32((length + size - 1) % WORD / size)
  }

  /** A fragmented send under way: chunk `index` is next. */
  datatype Cut = Cut(chunks: seq<Data>, id: u16, count: u32, index: nat)

  /** The fragmented send that stands before chunk `index`, if there is one. */
  function CutBefore(chunks: seq<Data>, id: u16, count: u32, index: nat): Option<Cut> {
    if index < |chunks| then Some(Cut(chunks, id, count, index)) else None
  }

  datatype Sender = Sender(
    sendSeq: u32, messageIndex: u32, orderIndex: u32, splitId: u16, mtu: u16,
    queue: S.QueueState<Datagram>, cut: Option<Cut>)
  {
    function SingleSize(): nat {
      SingleSizeFor(mtu)
    }

    /** Zero at an MTU of 80 only, where the program divides by it. */
    function ChunkSize(): nat {
      ChunkSizeFor(mtu)
    }

    /** The datagram that the next reliable ordered frame on channel 0 leaves in. */
    function NextDatagram(split: Option<F.SplitInfo>, payload: Data): Datagram {
      Datagram(Mask24(sendSeq),
               [F.Frame(F.ReliableOrdered, Some(Mask24(messageIndex)), None, Some(Mask24(orderIndex)), 0,
                        split, payload)])
    }

    /** Writes one frame to the socket: the datagram takes the next numbers. */
    function Launch(): Sender {
      this.(sendSeq := WrappingAdd(sendSeq, 1), messageIndex := WrappingAdd(messageIndex, 1),
            orderIndex := WrappingAdd(orderIndex, 1))
    }

    /** Queues a datagram for retransmission, after it has left. A full queue refuses it, which
        the program does not notice. */
    function Enqueue(d: Datagram, now: nat): Sender {
      this.(queue := queue.Insert(d.number, d, now).0)
    }

    /** Both, with nothing in between. */
    function Emit(split: Option<F.SplitInfo>, payload: Data, now: nat): Sender {
      Launch().Enqueue(NextDatagram(split, payload), now)
    }

    function StartCut(data: Data): Sender
      requires ChunkSize() > 0
    {
      this.(splitId := AsU16(splitId + 1),
            cut := CutBefore(G.Chunks(data, ChunkSize()), splitId, Announced(|data|, ChunkSize()), 0))
    }

    predicate Cutting() {
      cut.Some? && cut.value.index < |cut.value.chunks|
    }

    function CutInfo(): F.SplitInfo
      requires Cutting()
    {
      F.SplitInfo(cut.value.count, cut.value.id, AsU32(cut.value.index))
    }

    function CutChunk(): Data
      requires Cutting()
    {
      cut.value.chunks[cut.value.index]
    }

    function NextFragment(): Datagram
      requires Cutting()
    {
      NextDatagram(Some(CutInfo()), CutChunk())
    }

    /** Where the fragmented send stands after the next fragment. */
    function NextCut(): Option<Cut>
      requires Cutting()
    {
      CutBefore(cut.value.chunks, cut.value.id, cut.value.count, cut.value.index + 1)
    }

    function LaunchFragment(): Sender
      requires Cutting()
    {
      Launch().(cut := NextCut())
    }

    function EmitFragment(now: nat): Sender
      requires Cutting()
    {
      LaunchFragment().Enqueue(NextFragment(), now)
    }

    ghost function HandleAck(packet: seq<byte>): Sender {
      match C.Decoded(packet)
      case Ok((true, ranges)) => this.(queue := queue.HandleAck(ranges))
      case _ => this
    }

    ghost function Resend(now: nat, rtt: nat): Sender {
      this.(queue := queue.Expire(now, (rtt * 3) * 3))
    }
  }

  function NewSender(mtu: u16): Sender {
    Sender(0, 0, 0, 0, mtu, S.Empty(2048), None)
  }

  // ----- receiving -----

  /** A payload handed to the application, tagged with the way it took; a reassembled one also
      with the identifier of its split. */
  datatype Delivery = InOrder(data: Data) | Reassembled(id: u16, data: Data) | Direct(data: Data)

  /** `crashed` is a receive task that has panicked; the connection is not closed by that. */
  datatype Receiver = Receiver(
    window: W.WindowState, acks: seq<A.AckRange>, channels: seq<O.ChannelState>, fragments: G.FragmentState,
    closed: bool, crashed: bool)
  {
    /** Hands a frame to the reassembly queue or straight to the application. */
    ghost function Deliver(f: F.Frame, now: nat): (Receiver, seq<Delivery>) {
      match f.split
      case None => (this, [Direct(f.payload)])
      case Some(split) =>
        var (fragments', whole) := fragments.Insert(split.id, split.index, split.count, f.payload, now);
        (this.(fragments := fragments'), if whole.Some? then [Reassembled(split.id, whole.value)] else [])
    }

    ghost function Order(f: F.Frame): (Receiver, seq<Delivery>)
      requires f.orderChannel < |channels|
    {
      var (c, ready) := channels[f.orderChannel].Insert(f.orderIndex.GetOr(0), f.payload);
      (this.(channels := channels[f.orderChannel := c]), AllInOrder(ready))
    }

    /** A login packet, which a frame behind a disconnect in the same datagram can still be: the
        ordered channel skips it if it is the next one. */
    ghost function Login(f: F.Frame): Receiver {
      if f.payload == [] || f.payload[0] == ID_REQUEST_ACCEPTED || !f.reliability.IsOrdered() || f.orderIndex.None? then this
      else if f.orderChannel >= |channels| then this.(crashed := true)
      else if channels[f.orderChannel].next == f.orderIndex.value then Order(f).0
      else this
    }

    /** One frame: protocol packets are handled internally, and an order channel that does not
        exist is indexed nevertheless. */
    ghost function HandleFrame(f: F.Frame, now: nat): (Receiver, seq<Delivery>) {
      if !Passes(f.payload) then
        (this.(closed := closed || (f.payload != [] && f.payload[0] == ID_DISCONNECT)), [])
      else if closed && IsLogin(f.payload[0]) then (Login(f), [])
      else if f.reliability.IsOrdered() && f.split.None? then
        if f.orderChannel < |channels| then Order(f) else (this.(crashed := true), [])
      else Deliver(f, now)
    }

    /** The frame's handler fails, and the rest of the datagram is not handled. */
    predicate Refuses(f: F.Frame) {
      Malformed(f.payload) || (closed && f.payload != [] && f.payload[0] == ID_REQUEST && |f.payload| < 18)
    }

    ghost function HandleFrames(fs: seq<F.Frame>, now: nat): (Receiver, seq<Delivery>)
      decreases |fs|
    {
      if fs == [] then (this, [])
      else
        var (r, out) := HandleFrame(fs[0], now);
        if Refuses(fs[0]) || r.crashed then (r, out)
        else
          var (r', more) := r.HandleFrames(fs[1..], now);
          (r', out + more)
    }

    /** The window takes the datagram as new. */
    predicate Accepts(d: Datagram) {
      !closed && !crashed && window.Mark(d.number).1 == Some(true)
    }

    /** An accepted datagram is noted in the window and for acknowledgement. */
    function Noting(d: Datagram): Receiver {
      this.(window := window.Mark(d.number).0, acks := A.Inserted(acks, d.number))
    }

    ghost function HandleDatagram(d: Datagram, now: nat): (Receiver, seq<Delivery>) {
      if closed || crashed then (this, [])
      else if !Accepts(d) then (this.(window := window.Mark(d.number).0), [])
      else Noting(d).HandleFrames(d.frames, now)
    }

    /** What becomes of the bytes of a datagram: the frames the program's decoder finds. */
    ghost function HandleBytes(data: Data, now: nat): (Receiver, seq<Delivery>) {
      match F.ParseDatagram(data)
      case Err(_) => (this, [])
      case Ok((number, bytes)) => HandleDatagram(Datagram(number, F.ParseAll(bytes).0), now)
    }

    function FlushAcks(): (Receiver, Option<seq<byte>>) {
      if acks == [] then (this, None)
      else (this.(acks := []), Some(C.PacketBytes(C.ID_ACK, acks)))
    }

    function Cleanup(now: nat): Receiver {
      this.(fragments := fragments.Cleanup(now))
    }
  }

  const ID_PING: byte := 0x00
  const ID_PONG: byte := 0x03
  const ID_DISCONNECT: byte := 0x15
  const ID_REQUEST: byte := 0x09
  const ID_REQUEST_ACCEPTED: byte := 0x10
  const ID_NEW_CONNECTION: byte := 0x13

  predicate IsControl(id: byte) {
    id == ID_PING || id == ID_PONG || id == ID_DISCONNECT
  }

  predicate IsLogin(id: byte) {
    id == ID_REQUEST || id == ID_REQUEST_ACCEPTED || id == ID_NEW_CONNECTION
  }

  /** A payload that `handle_frame` does not keep to itself. */
  predicate Passes(payload: Data) {
    payload != [] && !IsControl(payload[0])
  }

  /** A ping or pong that its decoder refuses, which ends the handling of its datagram. */
  predicate Malformed(payload: Data) {
    payload != [] && ((payload[0] == ID_PING && |payload| < 9) || (payload[0] == ID_PONG && |payload| < 17))
  }

  function AllInOrder(ready: seq<Data>): (out: seq<Delivery>)
    ensures |out| == |ready| && forall i :: 0 <= i < |out| ==> out[i] == InOrder(ready[i])
  {
    seq(|ready|, i requires 0 <= i < |ready| => InOrder(ready[i]))
  }

  function NewReceiver(): Receiver {
    Receiver(W.New(2048), [], NewChannels(16), G.New(512), false, false)
  }

  function NewChannels(n: nat): (cs: seq<O.ChannelState>)
    ensures |cs| == n && forall i :: 0 <= i < n ==> cs[i] == O.New()
  {
    seq(n, i requires 0 <= i < n => O.New())
  }

  // ----- what fits into a datagram -----

  /** For the MTUs the length field allows, every datagram of a fragmented send, with its 28
      bytes of IP and UDP headers, fits the MTU, with 28 bytes to spare unless it is the last one,
      and is read back as the frame that was sent. */
  lemma FragmentFits(s: Sender, data: Data)
    requires s.Cutting() && 80 < s.mtu <= 8271 && s.cut.value.chunks == G.Chunks(data, s.ChunkSize())
    ensures var d := s.NextFragment();
            var size := |F.DatagramBytes(d.number, F.FramesBytes(d.frames))|;
            && size + 28 <= s.mtu && (s.NextCut().Some? ==> size + 28 == s.mtu - 28)
            && F.CarriedAll(d.frames) == d.frames && F.AllFit(d.frames)
  {
    G.ChunksPartition(data, s.ChunkSize());
    OneFrame(s.NextFragment().frames[0]);
  }

  /** A single frame has 18 bytes to spare at least, and exactly those if it has the largest
      payload that is not cut. */
  lemma SingleFits(s: Sender, data: Data)
    requires 60 <= s.mtu <= 8251 && |data| <= s.SingleSize()
    ensures var d := s.NextDatagram(None, data);
            var size := |F.DatagramBytes(d.number, F.FramesBytes(d.frames))|;
            && size + 28 <= s.mtu - 18 && (|data| == s.SingleSize() ==> size + 28 == s.mtu - 18)
            && F.CarriedAll(d.frames) == d.frames && F.AllFit(d.frames)
  {
    OneFrame(s.NextDatagram(None, data).frames[0]);
  }

  lemma OneFrame(f: F.Frame)
    requires f.reliability == F.ReliableOrdered && |f.payload| <= 8191
    requires f.messageIndex.Some? && f.sequenceIndex.None? && f.orderIndex.Some?
    ensures |F.FramesBytes([f])| == 10 + |f.payload| + if f.split.Some? then 10 else 0
    ensures F.CarriedAll([f]) == [f]
  {
    F.NothingLeft(f.payload, []);
    assert [f][1..] == [];
    assert F.FramesBytes([f]) == F.FrameBytes(f) + [];
  }

  lemma HandleFramesHead(r: Receiver, fs: seq<F.Frame>, now: nat)
    requires fs != []
    ensures var (r', more) := r.HandleFrame(fs[0], now);
            r.HandleFrames(fs, now)
            == if r.Refuses(fs[0]) || r'.crashed then (r', more)
               else (r'.HandleFrames(fs[1..], now).0, more + r'.HandleFrames(fs[1..], now).1)
  {
  }

  /** The frames from position `i` on, after deliveries `out`: one step of the receive loop. */
  lemma HandleFramesFrom(r: Receiver, fs: seq<F.Frame>, i: nat, now: nat, out: seq<Delivery>)
    requires i < |fs|
    ensures var (r', more) := r.HandleFrame(fs[i], now);
            var (all, rest) := r.HandleFrames(fs[i..], now);
            if r.Refuses(fs[i]) || r'.crashed then all == r' && out + rest == out + more
            else all == r'.HandleFrames(fs[i + 1..], now).0
                 && out + rest == (out + more) + r'.HandleFrames(fs[i + 1..], now).1
  {
    HandleFramesHead(r, fs[i..], now);
    assert fs[i..][0] == fs[i] && fs[i..][1..] == fs[i + 1..];
    var more, tail := r.HandleFrame(fs[i], now).1, r.HandleFrame(fs[i], now).0.HandleFrames(fs[i + 1..], now).1;
    assert out + (more + tail) == (out + more) + tail;
  }

  // ----- the frames of a datagram, one after the other -----

  /** A whole message outside the order, which goes straight to the application. */
  predicate Plain(f: F.Frame) {
    && f.payload != [] && f.payload[0] != 0x00 && f.payload[0] != 0x03 && f.payload[0] != 0x15
    && f.split.None? && (f.reliability.Unreliable? || f.reliability.UnreliableSequenced? || f.reliability.Reliable?)
  }

  /** An empty frame, or a ping or a pong that its decoder takes. */
  predicate Internal(f: F.Frame) {
    f.payload == [] || (f.payload[0] == 0x00 && |f.payload| >= 9) || (f.payload[0] == 0x03 && |f.payload| >= 17)
  }

  /** A ping or pong that its decoder refuses. */
  predicate Short(f: F.Frame) {
    f.payload != [] && ((f.payload[0] == 0x00 && |f.payload| < 9) || (f.payload[0] == 0x03 && |f.payload| < 17))
  }

  function Directs(fs: seq<F.Frame>): seq<Delivery> {
    if fs == [] then [] else (if Internal(fs[0]) then [] else [Direct(fs[0].payload)]) + Directs(fs[1..])
  }

  /** On an open receiver, messages outside the order are handed over, all of them, one by one;
      pings, pongs and empty frames among them change nothing. */
  lemma {:induction false} PlainFramesHandled(r: Receiver, fs: seq<F.Frame>, now: nat)
    requires !r.closed && !r.crashed && forall i :: 0 <= i < |fs| ==> Plain(fs[i]) || Internal(fs[i])
    ensures r.HandleFrames(fs, now) == (r, Directs(fs))
    decreases |fs|
  {
    if fs != [] {
      HandleFramesHead(r, fs, now);
      PlainFramesHandled(r, fs[1..], now);
    }
  }

  /** A message for the ordered channel `c`. */
  predicate ForChannel(f: F.Frame, c: nat) {
    && f.payload != [] && f.payload[0] != 0x00 && f.payload[0] != 0x03 && f.payload[0] != 0x15
    && f.split.None? && (f.reliability.ReliableOrdered? || f.reliability.ReliableSequenced?) && f.orderChannel == c
  }

  /** A channel after the payloads of some frames, and what it has released. */
  function Inserts(s: O.ChannelState, fs: seq<F.Frame>): (O.ChannelState, seq<Data>)
    decreases |fs|
  {
    if fs == [] then (s, [])
    else
      var (s1, out) := s.Insert(fs[0].orderIndex.GetOr(0), fs[0].payload);
      var (s2, more) := Inserts(s1, fs[1..]);
      (s2, out + more)
  }

  lemma AllInOrderConcat(a: seq<Data>, b: seq<Data>)
    ensures AllInOrder(a + b) == AllInOrder(a) + AllInOrder(b)
  {
  }

  /** On an open receiver, messages for one channel have the effect of their insertions in turn,
      and no other channel moves. */
  lemma {:induction false} OrderedFramesHandled(r: Receiver, fs: seq<F.Frame>, c: nat, now: nat)
    requires !r.closed && !r.crashed && c < |r.channels| && forall i :: 0 <= i < |fs| ==> ForChannel(fs[i], c)
    ensures r.HandleFrames(fs, now)
         == (r.(channels := r.channels[c := Inserts(r.channels[c], fs).0]), AllInOrder(Inserts(r.channels[c], fs).1))
    decreases |fs|
  {
    if fs == [] {
      assert r.channels[c := r.channels[c]] == r.channels;
    } else {
      var (s1, out) := r.channels[c].Insert(fs[0].orderIndex.GetOr(0), fs[0].payload);
      var r1 := r.(channels := r.channels[c := s1]);
      assert r.HandleFrame(fs[0], now) == (r1, AllInOrder(out));
      HandleFramesHead(r, fs, now);
      OrderedFramesHandled(r1, fs[1..], c, now);
      AllInOrderConcat(out, Inserts(s1, fs[1..]).1);
      assert r1.channels[c := Inserts(s1, fs[1..]).0] == r.channels[c := Inserts(s1, fs[1..]).0];
    }
  }

  /** The frame names an order channel that does not exist, and is about to use it. */
  predicate Strays(r: Receiver, f: F.Frame) {
    && f.payload != [] && f.payload[0] != 0x00 && f.payload[0] != 0x03 && f.payload[0] != 0x15
    && (f.reliability.ReliableOrdered? || f.reliability.ReliableSequenced?) && f.orderChannel >= |r.channels|
    && if r.closed && (f.payload[0] == 0x09 || f.payload[0] == 0x10 || f.payload[0] == 0x13)
       then f.payload[0] != 0x10 && f.orderIndex.Some? else f.split.None?
  }

  /** Behind a frame nothing of its datagram is handled any more, if and only if it is a ping or
      pong that is too short, names an order channel that does not exist, or is a connection
      request that is too short, behind a disconnect. */
  lemma StopsExactly(r: Receiver, f: F.Frame, now: nat)
    requires !r.crashed
    ensures (forall more: seq<F.Frame> :: r.HandleFrames([f] + more, now) == r.HandleFrames([f], now))
            <==> Short(f) || Strays(r, f) || (r.closed && f.payload != [] && f.payload[0] == 0x09 && |f.payload| < 18)
  {
    var (r1, out) := r.HandleFrame(f, now);
    var probe := F.Frame(F.Unreliable, None, None, None, 0, None, [1]);
    OneFrameHandled(r, f, now);
    forall more: seq<F.Frame>
      ensures r.HandleFrames([f] + more, now)
           == if r.Refuses(f) || r1.crashed then (r1, out)
              else (r1.HandleFrames(more, now).0, out + r1.HandleFrames(more, now).1)
    {
      HandleFramesHead(r, [f] + more, now);
      assert ([f] + more)[1..] == more;
    }
    CrashesExactly(r, f, now);
    if !(r.Refuses(f) || r1.crashed) {
      ProbeDelivered(r1, probe, now);
      assert r.HandleFrames([f] + [probe], now).1 == out + [Direct([1])];
      assert |out + [Direct([1])]| == |out| + 1;
    }
  }

  lemma CrashesExactly(r: Receiver, f: F.Frame, now: nat)
    requires !r.crashed
    ensures r.HandleFrame(f, now).0.crashed <==> Strays(r, f)
  {
  }

  lemma ProbeDelivered(r: Receiver, probe: F.Frame, now: nat)
    requires !r.crashed && probe == F.Frame(F.Unreliable, None, None, None, 0, None, [1])
    ensures r.HandleFrames([probe], now).1 == [Direct([1])]
  {
    OneFrameHandled(r, probe, now);
  }

  /** A disconnect closes the receiver and nothing else does. */
  lemma ClosesExactly(r: Receiver, f: F.Frame, now: nat)
    ensures r.HandleFrame(f, now).0.closed <==> r.closed || (f.payload != [] && f.payload[0] == 0x15)
  {
  }

  /** Behind a disconnect, a connection request or the notice of a new connection makes its channel
      skip it if it is the next one, as if it were a message that nobody gets; otherwise a login
      packet changes nothing. */
  lemma LoginSkips(r: Receiver, f: F.Frame, now: nat)
    requires r.closed && f.payload != [] && (f.payload[0] == 0x09 || f.payload[0] == 0x10 || f.payload[0] == 0x13)
    requires f.orderChannel < |r.channels|
    ensures var (r', out) := r.HandleFrame(f, now);
            var c := r.channels[f.orderChannel];
            && out == []
            && r' == if f.payload[0] != 0x10 && (f.reliability.ReliableOrdered? || f.reliability.ReliableSequenced?)
                        && f.orderIndex == Some(c.next)
                     then r.(channels := r.channels[f.orderChannel := c.Insert(c.next, f.payload).0])
                     else r
  {
  }

  /** One datagram at an open receiver: the window marks its number, and exactly if it is new it
      becomes pending, whatever its frames; no other number does. */
  lemma DatagramNoted(r: Receiver, d: Datagram, now: nat, x: u24)
    requires !r.closed && !r.crashed && A.Canonical(r.acks)
    ensures var (r', out) := r.HandleDatagram(d, now);
            && r'.window == r.window.Mark(d.number).0 && A.Canonical(r'.acks)
            && (A.Covers(r'.acks, x) <==> A.Covers(r.acks, x) || (x == d.number && r.window.Mark(d.number).1 == Some(true)))
            && (r.window.Mark(d.number).1 != Some(true) ==> r' == r.(window := r'.window) && out == [])
  {
    A.InsertedIsCorrect(r.acks, d.number);
    HandleFramesKeeps(r.Noting(d), d.frames, now);
  }

  lemma HandleFramesKeeps(r: Receiver, fs: seq<F.Frame>, now: nat)
    ensures r.HandleFrames(fs, now).0.acks == r.acks
    ensures r.HandleFrames(fs, now).0.window == r.window
    decreases |fs|
  {
    if fs != [] {
      HandleFramesKeeps(r.HandleFrame(fs[0], now).0, fs[1..], now);
    }
  }

  /** A flush sends everything that is pending, as an acknowledgement, and leaves nothing pending. */
  lemma FlushExactly(r: Receiver)
    ensures var (r', packet) := r.FlushAcks();
            && r' == r.(acks := [])
            && (packet == None <==> r.acks == [])
            && (packet.Some? && |r.acks| <= 0xFFFF ==> C.ParsePacket(packet.value) == Ok((true, r.acks)))
  {
    if r.acks != [] && |r.acks| <= 0xFFFF {
      C.ParsePacketBytes(C.ID_ACK, r.acks);
      C.AllAnnounced(r.acks);
    }
  }

  // ----- steps of the sender -----

  /** A datagram queued with room is sent again if and only if more than nine round-trip times
      have passed since. */
  lemma EnqueueExactly(s: Sender, d: Datagram, now: nat, t: nat, rtt: nat)
    ensures var s' := s.Enqueue(d, now);
            && s' == s.(queue := s'.queue)
            && (|s.queue.packets| >= s.queue.maxSize ==> s' == s)
            && (|s.queue.packets| < s.queue.maxSize ==>
                  && ((d.number, d) in s'.queue.Expired(t, (rtt * 3) * 3) <==> t > now + 9 * rtt)
                  && s'.queue.packets.Keys == s.queue.packets.Keys + {d.number})
  {
    S.InsertExactly(s.queue, d.number, d, now);
    S.ExpiredIsLate(s.Enqueue(d, now).queue, t, (rtt * 3) * 3);
  }

  /** Before the first round trip has been measured that makes 2.7 seconds. */
  lemma FirstTimeout(s: Sender, d: Datagram, now: nat, t: nat)
    requires |s.queue.packets| < s.queue.maxSize
    ensures (d.number, d) in s.Enqueue(d, now).queue.Expired(t, (M.INITIAL_RTT * 3) * 3) <==> t > now + 2_700_000
  {
    EnqueueExactly(s, d, now, t, M.INITIAL_RTT);
  }

  /** A send takes the next three numbers and queues its datagram at its time; a fragment does the
      same and moves on in its message. */
  lemma EmitExactly(s: Sender, split: Option<F.SplitInfo>, payload: Data, now: nat, t: nat, rtt: nat)
    requires |s.queue.packets| < s.queue.maxSize
    ensures var (s', d) := (s.Emit(split, payload, now), s.NextDatagram(split, payload));
            && s'.sendSeq == AsU32(s.sendSeq + 1) && s'.messageIndex == AsU32(s.messageIndex + 1)
            && s'.orderIndex == AsU32(s.orderIndex + 1)
            && ((d.number, d) in s'.queue.Expired(t, (rtt * 3) * 3) <==> t > now + 9 * rtt)
    ensures s.Cutting() ==>
              var (s', d) := (s.EmitFragment(now), s.NextFragment());
              && (d.number, d) in s'.queue.Expired(t, (rtt * 3) * 3) <==> t > now + 9 * rtt
  {
    EnqueueExactly(s.Launch(), s.NextDatagram(split, payload), now, t, rtt);
    if s.Cutting() {
      EnqueueExactly(s.LaunchFragment(), s.NextFragment(), now, t, rtt);
    }
  }

  /** After a scan a packet is due again nine round-trip times after the scan if it was sent again
      then, and otherwise when it was due before. */
  lemma ResendExactly(s: Sender, now: nat, rtt: nat, t: nat, rtt': nat, k: u32)
    requires k in s.queue.packets
    ensures var (s', e) := (s.Resend(now, rtt), s.queue.packets[k]);
            && s' == s.(queue := s'.queue)
            && ((k, e.packet) in s'.queue.Expired(t, (rtt' * 3) * 3)
                <==> t > (if now > e.lastSend + 9 * rtt then now else e.lastSend) + 9 * rtt')
  {
    S.ExpireKeepsPackets(s.queue, now, (rtt * 3) * 3);
    S.ExpiredIsLate(s.Resend(now, rtt).queue, t, (rtt' * 3) * 3);
  }

  /** An acknowledgement removes exactly the entries whose numbers its records cover; a packet
      that is none, or is refused, changes nothing. */
  lemma AckHandled(s: Sender, packet: seq<byte>)
    ensures var s' := s.HandleAck(packet);
            match C.ParsePacket(packet)
            case Ok((true, records)) =>
              && s' == s.(queue := s'.queue)
              && (forall k: u24 :: k in s'.queue.packets <==> k in s.queue.packets && !A.Covers(records, k))
              && (forall k :: k in s'.queue.packets ==>
                    k in s.queue.packets && s'.queue.packets[k] == s.queue.packets[k])
              && s'.queue.acked + |s'.queue.packets| == s.queue.acked + |s.queue.packets|
              && s'.queue.sent == s.queue.sent && s'.queue.resent == s.queue.resent
              && s'.queue.maxSize == s.queue.maxSize
            case _ => s' == s
  {
    if C.Decoded(packet).Ok? {
      C.DecodedDenotes(packet);
      S.HandleAckRemoves(s.queue, C.Decoded(packet).value.1);
    }
  }

  // ----- a whole fragmented send -----

  /** The sender after the first `n` fragments of the send under way, and their datagrams. */
  function Fragmented(s: Sender, n: nat, clock: nat -> nat): (Sender, seq<Datagram>)
  {
    if n == 0 then (s, [])
    else
      var (t, ds) := Fragmented(s, n - 1, clock);
      if t.Cutting() then (t.EmitFragment(clock(n - 1)), ds + [t.NextFragment()]) else (t, ds)
  }

  lemma FragmentedNext(s: Sender, n: nat, clock: nat -> nat)
    requires Fragmented(s, n, clock).0.Cutting()
    ensures var (t, ds) := Fragmented(s, n, clock);
            && Fragmented(s, n + 1, clock).0 == t.EmitFragment(clock(n))
            && Fragmented(s, n + 1, clock).1 == ds + [t.NextFragment()]
  {
  }

  /** The datagram of chunk `i` in a fragmented send begun by `s`. */
  ghost predicate CarriesChunk(s: Sender, chunks: seq<Data>, count: u32, i: nat, d: Datagram)
    requires i < |chunks|
  {
    && d.number == Mask24(AsU32(s.sendSeq + i)) && |d.frames| == 1
    && d.frames[0].reliability == F.ReliableOrdered
    && d.frames[0].payload == chunks[i]
    && d.frames[0].split == Some(F.SplitInfo(count, s.splitId, AsU32(i)))
  }

  /** The sender in the middle of a fragmented send begun by `s`. */
  ghost predicate MidCut(s: Sender, chunks: seq<Data>, count: u32, k: nat, t: Sender) {
    t.mtu == s.mtu && t.cut == CutBefore(chunks, s.splitId, count, k) && t.sendSeq == AsU32(s.sendSeq + k)
  }

  lemma NextWord(x: u32, k: nat)
    ensures WrappingAdd(AsU32(x + k), 1) == AsU32(x + k + 1)
  {
  }

  /** After `k` fragments the sender is at the next one and `ds` are their datagrams. */
  ghost predicate SentSome(s: Sender, chunks: seq<Data>, count: u32, k: nat, t: Sender, ds: seq<Datagram>)
    requires k <= |chunks|
  {
    && MidCut(s, chunks, count, k, t) && |ds| == k
    && forall i :: 0 <= i < k ==> CarriesChunk(s, chunks, count, i, ds[i])
  }

  lemma OneChunkSent(s: Sender, chunks: seq<Data>, count: u32, k: nat, t: Sender, now: nat)
    requires k < |chunks| && MidCut(s, chunks, count, k, t)
    ensures t.Cutting() && CarriesChunk(s, chunks, count, k, t.NextFragment())
    ensures MidCut(s, chunks, count, k + 1, t.EmitFragment(now))
  {
    NextWord(s.sendSeq, k);
  }

  lemma OneMoreSent(s: Sender, chunks: seq<Data>, count: u32, k: nat, t: Sender, ds: seq<Datagram>, now: nat)
    requires k < |chunks| && SentSome(s, chunks, count, k, t, ds)
    ensures t.Cutting() && SentSome(s, chunks, count, k + 1, t.EmitFragment(now), ds + [t.NextFragment()])
  {
    OneChunkSent(s, chunks, count, k, t, now);
  }

  /** A fragmented send sends every chunk, in order, each under the next number and with its
      index and the common count and identifier, and is then over. */
  lemma {:induction false} FragmentedSends(s: Sender, data: Data, k: nat, clock: nat -> nat)
    requires s.ChunkSize() > 0 && k <= |G.Chunks(data, s.ChunkSize())|
    ensures var (t, ds) := Fragmented(s.StartCut(data), k, clock);
            SentSome(s, G.Chunks(data, s.ChunkSize()), Announced(|data|, s.ChunkSize()), k, t, ds)
  {
    if k == 0 {
      assert AsU32(s.sendSeq + 0) == s.sendSeq;
    } else {
      FragmentedSends(s, data, k - 1, clock);
      var (t, ds) := Fragmented(s.StartCut(data), k - 1, clock);
      OneMoreSent(s, G.Chunks(data, s.ChunkSize()), Announced(|data|, s.ChunkSize()), k - 1, t, ds, clock(k - 1));
    }
  }

  /** The count announced is the number of chunks for every MTU over 80. Below that the chunk
      size has wrapped, there is one chunk, and the count is 1 only if the data is no longer than
      what is missing to an MTU of 80; otherwise it is 0. */
  lemma AnnouncedCount(mtu: u16, data: Data)
    requires data != [] && |data| < 0x1_0000_0000 && mtu != 80
    ensures var n := |G.Chunks(data, ChunkSizeFor(mtu))|;
            && n < 0x1_0000_0000
            && Announced(|data|, ChunkSizeFor(mtu))
               == (if mtu > 80 then n else if |data| <= 80 - mtu then 1 else 0)
            && (mtu < 80 ==> n == 1)
  {
    var size, length := ChunkSizeFor(mtu), |data|;
    G.CountAtMost(data, size, 0);
    if mtu > 80 {
      G.CountIsRight(data, size);
      assert (length + size - 1) % WORD == length + size - 1;
    } else {
      assert G.ChunksFrom(data, size, size) == [];
      if length <= 80 - mtu {
        assert (length + size - 1) % WORD == size + (length - 1);
        G.QuotientIs(1, length - 1, size);
      } else {
        assert (length + size - 1) % WORD == length + size - 1 - WORD;
        G.QuotientIs(0, length + size - 1 - WORD, size);
      }
    }
  }

  // ----- fragments and the order -----

  /** What a receiver is given: a datagram, or the tick that removes expired fragments. */
  datatype Incoming = Packet(d: Datagram, now: nat) | Tick(now: nat)

  ghost function Take(r: Receiver, e: Incoming): (Receiver, seq<Delivery>) {
    match e
    case Packet(d, now) => r.HandleDatagram(d, now)
    case Tick(now) => (r.Cleanup(now), [])
  }

  /** The receiver after all of them, and what it has handed over. */
  ghost function Taken(r: Receiver, ins: seq<Incoming>): (Receiver, seq<Delivery>) {
    if ins == [] then (r, [])
    else
      var (r1, out) := Taken(r, ins[..|ins| - 1]);
      var (r2, more) := Take(r1, ins[|ins| - 1]);
      (r2, out + more)
  }

  /** The window refuses none of the datagrams. */
  ghost predicate LetThrough(r: Receiver, ins: seq<Incoming>) {
    ins == [] ||
    var before, e := ins[..|ins| - 1], ins[|ins| - 1];
    && LetThrough(r, before)
    && (e.Packet? ==> Taken(r, before).0.closed || Taken(r, before).0.Accepts(e.d))
  }

  ghost predicate CarriesOne(d: Datagram, id: u16, chunks: seq<Data>, i: u32) {
    && i < |chunks| < 0x1_0000_0000 && |d.frames| == 1
    && d.frames[0].split == Some(F.SplitInfo(|chunks|, id, i)) && d.frames[0].payload == chunks[i]
  }

  /** The index of the chunk that a datagram carries. */
  function IndexOf(d: Datagram): u32 {
    if d.frames != [] && d.frames[0].split.Some? then d.frames[0].split.value.index else 0
  }

  /** Each datagram carries a chunk of the message, under any order index whatever. */
  ghost predicate Carries(ins: seq<Incoming>, id: u16, chunks: seq<Data>) {
    forall k :: 0 <= k < |ins| && ins[k].Packet? ==> CarriesOne(ins[k].d, id, chunks, IndexOf(ins[k].d))
  }

  predicate AllPass(chunks: seq<Data>) {
    forall i :: 0 <= i < |chunks| ==> Passes(chunks[i])
  }

  ghost function IndexSet(ins: seq<Incoming>): set<u32> {
    if ins == [] then {}
    else
      var e := ins[|ins| - 1];
      IndexSet(ins[..|ins| - 1]) + if e.Packet? then {IndexOf(e.d)} else {}
  }

  ghost predicate Covers(ins: seq<Incoming>, n: nat)
    requires n < 0x1_0000_0000
  {
    IndexSet(ins) == G.Upto(n)
  }

  /** When the first of the datagrams arrived. */
  function Begun(ins: seq<Incoming>): Option<nat> {
    if ins == [] then None
    else
      var t, e := Begun(ins[..|ins| - 1]), ins[|ins| - 1];
      if t.None? && e.Packet? then Some(e.now) else t
  }

  /** No tick comes later than eight seconds after the first of the datagrams. */
  predicate InTime(ins: seq<Incoming>) {
    ins == [] ||
    var before, e := ins[..|ins| - 1], ins[|ins| - 1];
    InTime(before) && (e.Tick? && Begun(before).Some? ==> e.now <= Begun(before).value + 8_000_000)
  }

  lemma {:induction false} IndicesBelow(ins: seq<Incoming>, id: u16, chunks: seq<Data>)
    requires Carries(ins, id, chunks) && |chunks| < 0x1_0000_0000
    ensures IndexSet(ins) <= G.Upto(|chunks|)
  {
    if ins != [] {
      IndicesBelow(ins[..|ins| - 1], id, chunks);
      if ins[|ins| - 1].Packet? {
        assert CarriesOne(ins[|ins| - 1].d, id, chunks, IndexOf(ins[|ins| - 1].d));
      }
    }
  }

  /** The queue has room and holds the chunks with indices `have`. */
  ghost predicate Gathering(r: Receiver, id: u16, chunks: seq<Data>, have: set<u32>) {
    && !r.crashed && G.Collecting(r.fragments.Lookup(id), chunks, have) && !r.fragments.Full(id)
    && |r.fragments.splits| <= r.fragments.maxConcurrent
  }

  /** Moreover the receiver is open and the entry has the time of the first chunk. */
  ghost predicate GatheringSince(r: Receiver, id: u16, chunks: seq<Data>, have: set<u32>, start: Option<nat>) {
    && Gathering(r, id, chunks, have) && !r.closed && r.fragments.timeout == 8_000_000
    && G.CollectingSince(r.fragments.Lookup(id), chunks, have, start)
  }

  lemma SplitFrameHandled(r: Receiver, f: F.Frame, s: F.SplitInfo, now: nat)
    requires f.split == Some(s) && Passes(f.payload) && !r.closed
    ensures var (fragments, whole) := r.fragments.Insert(s.id, s.index, s.count, f.payload, now);
            r.HandleFrame(f, now)
            == (r.(fragments := fragments), if whole.Some? then [Reassembled(s.id, whole.value)] else [])
  {
  }

  lemma OneFrameHandled(r: Receiver, f: F.Frame, now: nat)
    ensures r.HandleFrames([f], now) == r.HandleFrame(f, now)
  {
    var (r', out) := r.HandleFrame(f, now);
    assert [f][1..] == [];
    assert out + [] == out;
  }

  lemma OneFrameDatagram(r: Receiver, d: Datagram, now: nat)
    requires |d.frames| == 1 && r.Accepts(d)
    ensures r.HandleDatagram(d, now) == r.Noting(d).HandleFrame(d.frames[0], now)
  {
    assert d.frames == [d.frames[0]];
    OneFrameHandled(r.Noting(d), d.frames[0], now);
  }

  /** A fragment that passes: the last one missing completes the message. */
  lemma FragmentKept(r: Receiver, d: Datagram, id: u16, chunks: seq<Data>, i: u32, have: set<u32>, now: nat)
    requires CarriesOne(d, id, chunks, i) && Passes(chunks[i]) && Gathering(r, id, chunks, have) && r.Accepts(d)
    ensures var (r', out) := r.HandleDatagram(d, now);
            && r'.channels == r.channels && r'.closed == r.closed
            && r'.fragments == G.After(r.fragments, G.Arrival(id, i, |chunks|, chunks[i], now))
            && (if have + {i} == G.Upto(|chunks|) then out == [Reassembled(id, G.Join(chunks))]
                else out == [] && Gathering(r', id, chunks, have + {i}))
  {
    OneFrameDatagram(r, d, now);
    SplitFrameHandled(r.Noting(d), d.frames[0], d.frames[0].split.value, now);
    G.ArrivalCollects(r.fragments, G.Arrival(id, i, |chunks|, chunks[i], now), chunks, have);
  }

  /** And the entry has the time of the first of them. */
  lemma FragmentStamped(r: Receiver, d: Datagram, id: u16, chunks: seq<Data>, i: u32, have: set<u32>, start: Option<nat>, now: nat)
    requires CarriesOne(d, id, chunks, i) && Passes(chunks[i]) && r.Accepts(d)
    requires GatheringSince(r, id, chunks, have, start) && have + {i} != G.Upto(|chunks|)
    ensures GatheringSince(r.HandleDatagram(d, now).0, id, chunks, have + {i}, if start.None? then Some(now) else start)
  {
    var a := G.Arrival(id, i, |chunks|, chunks[i], now);
    FragmentKept(r, d, id, chunks, i, have, now);
    G.EventCollects(r.fragments, G.Arrive(a), id, chunks, have, start);
    G.RunKeepsLimits(r.fragments, [G.Arrive(a)]);
    assert [G.Arrive(a)][..0] == [];
  }

  /** One that does not pass leaves no trace in queue and channels. */
  lemma FragmentSwallowed(r: Receiver, d: Datagram, id: u16, chunks: seq<Data>, i: u32, have: set<u32>, now: nat)
    requires CarriesOne(d, id, chunks, i) && !Passes(chunks[i]) && Gathering(r, id, chunks, have) && r.Accepts(d)
    ensures var (r', out) := r.HandleDatagram(d, now);
            out == [] && r'.channels == r.channels && Gathering(r', id, chunks, have)
  {
    OneFrameDatagram(r, d, now);
  }

  lemma RoomAfterTick(q: G.FragmentState, id: u16, now: nat)
    requires !q.Full(id) && (id in q.splits ==> id in q.Cleanup(now).splits || |q.Cleanup(now).splits| < q.maxConcurrent)
    ensures !q.Cleanup(now).Full(id)
  {
    G.SubsetSize(q.Cleanup(now).splits.Keys, q.splits.Keys);
  }

  /** A tick in time changes nothing about the message. */
  lemma TickInTime(r: Receiver, id: u16, chunks: seq<Data>, have: set<u32>, start: Option<nat>, now: nat)
    requires GatheringSince(r, id, chunks, have, start) && (start.Some? ==> now <= start.value + 8_000_000)
    ensures GatheringSince(r.Cleanup(now), id, chunks, have, start)
  {
    G.EventCollects(r.fragments, G.Clean(now), id, chunks, have, start);
    assert have + {} == have;
    RoomAfterTick(r.fragments, id, now);
  }

  lemma {:induction false} StillUncovered(ins: seq<Incoming>, id: u16, chunks: seq<Data>)
    requires Carries(ins, id, chunks) && ins != [] && |chunks| < 0x1_0000_0000 && !Covers(ins, |chunks|)
    ensures !Covers(ins[..|ins| - 1], |chunks|)
  {
    IndicesBelow(ins, id, chunks);
    IndicesBelow(ins[..|ins| - 1], id, chunks);
  }

  /** As long as an index is missing, all chunks pass, and no tick comes too late, the queue
      gathers what arrives. */
  lemma {:induction false} FragmentsGather(r: Receiver, ins: seq<Incoming>, id: u16, chunks: seq<Data>)
    requires Carries(ins, id, chunks) && 0 < |chunks| < 0x1_0000_0000 && AllPass(chunks)
    requires GatheringSince(r, id, chunks, {}, None) && LetThrough(r, ins) && InTime(ins) && !Covers(ins, |chunks|)
    ensures var (r', out) := Taken(r, ins);
            out == [] && r'.channels == r.channels && GatheringSince(r', id, chunks, IndexSet(ins), Begun(ins))
  {
    if ins != [] {
      var before, e := ins[..|ins| - 1], ins[|ins| - 1];
      StillUncovered(ins, id, chunks);
      FragmentsGather(r, before, id, chunks);
      var r1 := Taken(r, before).0;
      match e
      case Packet(d, now) =>
        assert CarriesOne(d, id, chunks, IndexOf(d));
        FragmentKept(r1, d, id, chunks, IndexOf(d), IndexSet(before), now);
        FragmentStamped(r1, d, id, chunks, IndexOf(d), IndexSet(before), Begun(before), now);
      case Tick(now) =>
        TickInTime(r1, id, chunks, IndexSet(before), Begun(before), now);
        assert IndexSet(ins) == IndexSet(before);
    }
  }

  /** The datagram that brings the last missing index completes the message. */
  lemma FragmentsComplete(r: Receiver, ins: seq<Incoming>, id: u16, chunks: seq<Data>)
    requires Carries(ins, id, chunks) && ins != [] && ins[|ins| - 1].Packet?
    requires 0 < |chunks| < 0x1_0000_0000 && AllPass(chunks)
    requires GatheringSince(r, id, chunks, {}, None) && LetThrough(r, ins) && InTime(ins)
    requires !Covers(ins[..|ins| - 1], |chunks|)
    ensures var (r', out) := Taken(r, ins);
            && r'.channels == r.channels
            && out == if Covers(ins, |chunks|) then [Reassembled(id, G.Join(chunks))] else []
  {
    var before, e := ins[..|ins| - 1], ins[|ins| - 1];
    FragmentsGather(r, before, id, chunks);
    assert CarriesOne(e.d, id, chunks, IndexOf(e.d));
    FragmentKept(Taken(r, before).0, e.d, id, chunks, IndexOf(e.d), IndexSet(before), e.now);
  }

  /** While chunk `j`, which does not pass, is missing, nothing is completed. */
  lemma StillMissing(r: Receiver, e: Incoming, id: u16, chunks: seq<Data>, have: set<u32>, j: u32)
    returns (have': set<u32>)
    requires Gathering(r, id, chunks, have)
    requires e.Packet? ==> CarriesOne(e.d, id, chunks, IndexOf(e.d)) && (r.closed || r.Accepts(e.d))
    requires j < |chunks| && j !in have && !Passes(chunks[j])
    ensures var (r', out) := Take(r, e);
            out == [] && r'.channels == r.channels && j !in have' && Gathering(r', id, chunks, have')
  {
    have' := have;
    if e.Tick? {
      G.CleanupExactly(r.fragments, id, e.now);
      if r.fragments.Cleanup(e.now).Lookup(id) != r.fragments.Lookup(id) {
        have' := {};
        assert j in G.Upto(|chunks|);
        OneFewer(r.fragments, id, e.now);
      }
      RoomAfterTick(r.fragments, id, e.now);
    } else if !r.closed {
      if Passes(chunks[IndexOf(e.d)]) {
        assert j in G.Upto(|chunks|) && j !in have + {IndexOf(e.d)};
        FragmentKept(r, e.d, id, chunks, IndexOf(e.d), have, e.now);
        have' := have + {IndexOf(e.d)};
      } else {
        FragmentSwallowed(r, e.d, id, chunks, IndexOf(e.d), have, e.now);
      }
    }
  }

  lemma OneFewer(q: G.FragmentState, id: u16, now: nat)
    requires id in q.splits && id !in q.Cleanup(now).splits && |q.splits| <= q.maxConcurrent
    ensures |q.Cleanup(now).splits| < q.maxConcurrent
  {
    G.SubsetSize(q.Cleanup(now).splits.Keys, q.splits.Keys - {id});
    assert |q.splits.Keys - {id}| == |q.splits.Keys| - 1;
  }

  /** If chunk `j` does not pass, the message stays incomplete whatever happens. */
  lemma {:induction false} FragmentsSwallowed(r: Receiver, ins: seq<Incoming>, id: u16, chunks: seq<Data>, j: u32)
    returns (have: set<u32>)
    requires Carries(ins, id, chunks) && j < |chunks| < 0x1_0000_0000 && !Passes(chunks[j])
    requires Gathering(r, id, chunks, {}) && LetThrough(r, ins)
    ensures var (r', out) := Taken(r, ins);
            out == [] && r'.channels == r.channels && j !in have && Gathering(r', id, chunks, have)
  {
    if ins == [] {
      have := {};
    } else {
      var n := |ins| - 1;
      have := FragmentsSwallowed(r, ins[..n], id, chunks, j);
      if ins[n].Packet? {
        assert CarriesOne(ins[n].d, id, chunks, IndexOf(ins[n].d));
      }
      have := StillMissing(Taken(r, ins[..n]).0, ins[n], id, chunks, have, j);
    }
  }

  lemma NothingGathered(r: Receiver, id: u16, chunks: seq<Data>)
    requires 0 < |chunks| < 0x1_0000_0000 && !r.closed && !r.crashed
    requires id !in r.fragments.splits && !r.fragments.Full(id) && r.fragments.timeout == 8_000_000
    ensures GatheringSince(r, id, chunks, {}, None)
  {
    G.UptoWhole(0, |chunks|);
  }

  /** A fragmented message, its fragments arriving in any order and with repeats in datagrams
      that the window lets through, with no tick later than eight seconds after the first,
      reaches the application with the one that brings the last missing index, whatever their
      order indices and however far the ordered channel still is from them, and no channel moves;
      but it does so if and only if none of its chunks happens to begin with the ID of a ping, a
      pong or a disconnect. */
  lemma FragmentsBypassOrder(r: Receiver, ins: seq<Incoming>, id: u16, data: Data, size: nat)
    requires size > 0 && data != [] && |G.Chunks(data, size)| < 0x1_0000_0000
    requires Carries(ins, id, G.Chunks(data, size)) && ins != [] && ins[|ins| - 1].Packet?
    requires LetThrough(r, ins) && InTime(ins)
    requires id !in r.fragments.splits && !r.fragments.Full(id) && r.fragments.timeout == 8_000_000
    requires !r.closed && !r.crashed
    requires AllPass(G.Chunks(data, size)) ==> !Covers(ins[..|ins| - 1], |G.Chunks(data, size)|)
    ensures var (r', out) := Taken(r, ins);
            && r'.channels == r.channels
            && out == if AllPass(G.Chunks(data, size)) && Covers(ins, |G.Chunks(data, size)|)
                      then [Reassembled(id, data)] else []
  {
    var chunks := G.Chunks(data, size);
    G.ChunksPartition(data, size);
    NothingGathered(r, id, chunks);
    if AllPass(chunks) {
      FragmentsComplete(r, ins, id, chunks);
    } else {
      var j :| 0 <= j < |chunks| && !Passes(chunks[j]);
      var _ := FragmentsSwallowed(r, ins, id, chunks, j);
    }
  }

  /** A tick more than eight seconds after the first fragment forgets an incomplete message; up to
      then it keeps all that has arrived. */
  lemma TickForgetsExactly(r: Receiver, ins: seq<Incoming>, id: u16, chunks: seq<Data>, now: nat)
    requires Carries(ins, id, chunks) && 0 < |chunks| < 0x1_0000_0000 && AllPass(chunks) && Begun(ins).Some?
    requires GatheringSince(r, id, chunks, {}, None) && LetThrough(r, ins) && InTime(ins) && !Covers(ins, |chunks|)
    ensures var (r', out) := Taken(r, ins + [Tick(now)]);
            && out == []
            && r'.fragments.Lookup(id)
               == (if now > Begun(ins).value + 8_000_000 then None else Taken(r, ins).0.fragments.Lookup(id))
            && Taken(r, ins).0.fragments.Lookup(id).Some?
  {
    FragmentsGather(r, ins, id, chunks);
    assert (ins + [Tick(now)])[..|ins|] == ins;
    G.CleanupExactly(Taken(r, ins).0.fragments, id, now);
  }

  /** The datagrams that arrive are among those sent. */
  ghost predicate Among(ins: seq<Incoming>, ds: seq<Datagram>) {
    forall k :: 0 <= k < |ins| && ins[k].Packet? ==> ins[k].d in ds
  }

  lemma SentCarriesOne(s: Sender, chunks: seq<Data>, i: u32, d: Datagram)
    requires i < |chunks| < 0x1_0000_0000 && CarriesChunk(s, chunks, |chunks|, i, d)
    ensures CarriesOne(d, s.splitId, chunks, IndexOf(d))
  {
  }

  lemma SentCarry(s: Sender, chunks: seq<Data>, ds: seq<Datagram>, ins: seq<Incoming>)
    requires |ds| == |chunks| < 0x1_0000_0000 && Among(ins, ds)
    requires forall i :: 0 <= i < |ds| ==> CarriesChunk(s, chunks, |chunks|, i, ds[i])
    ensures Carries(ins, s.splitId, chunks)
  {
    forall d | d in ds ensures CarriesOne(d, s.splitId, chunks, IndexOf(d)) {
      var i :| 0 <= i < |ds| && ds[i] == d;
      SentCarriesOne(s, chunks, i, d);
    }
  }

  /** So a fragmented message overtakes whatever was sent before it: its own datagrams, which the
      receiver's window lets through in any order, make the receiver hand it over as soon as they
      are all there, if that takes no longer than eight seconds between cleanups, even if it has
      got nothing that was sent earlier; unless one of the chunks is taken for a control packet. */
  lemma FragmentsOvertake(s: Sender, r: Receiver, data: Data, sending: nat -> nat, ins: seq<Incoming>)
    requires s.mtu > 80 && data != [] && |data| < 0x1_0000_0000
    requires var ds := Fragmented(s.StartCut(data), |G.Chunks(data, s.ChunkSize())|, sending).1; Among(ins, ds)
    requires ins != [] && ins[|ins| - 1].Packet? && LetThrough(r, ins) && InTime(ins)
    requires s.splitId !in r.fragments.splits && !r.fragments.Full(s.splitId) && r.fragments.timeout == 8_000_000
    requires !r.closed && !r.crashed
    requires |G.Chunks(data, s.ChunkSize())| < 0x1_0000_0000 ==> !Covers(ins[..|ins| - 1], |G.Chunks(data, s.ChunkSize())|)
    ensures var chunks := G.Chunks(data, s.ChunkSize());
            var (r', out) := Taken(r, ins);
            && |chunks| < 0x1_0000_0000 && r'.channels == r.channels
            && out == if AllPass(chunks) && Covers(ins, |chunks|) then [Reassembled(s.splitId, data)] else []
  {
    var chunks := G.Chunks(data, s.ChunkSize());
    AnnouncedCount(s.mtu, data);
    FragmentedSends(s, data, |chunks|, sending);
    SentCarry(s, chunks, Fragmented(s.StartCut(data), |chunks|, sending).1, ins);
    FragmentsBypassOrder(r, ins, s.splitId, data, s.ChunkSize());
  }

  // ----- what a receiver holds -----

  /** The receiver has its buffers in their sizes, and none of them holds more than it should. */
  ghost predicate WithinLimits(r: Receiver) {
    && |r.window.bits| == 2048
    && |r.channels| == 16 && (forall c :: c in r.channels ==> c.maxQueue == 256 && |c.queue| <= 256)
    && r.fragments.maxConcurrent == 512 && r.fragments.timeout == 8_000_000 && |r.fragments.splits| <= 512
  }

  lemma OrderWithinLimits(r: Receiver, f: F.Frame)
    requires WithinLimits(r) && f.orderChannel < |r.channels|
    ensures WithinLimits(r.Order(f).0)
  {
    O.InsertBounded(r.channels[f.orderChannel], f.orderIndex.GetOr(0), f.payload);
  }

  lemma FrameWithinLimits(r: Receiver, f: F.Frame, now: nat)
    requires WithinLimits(r)
    ensures WithinLimits(r.HandleFrame(f, now).0)
  {
    if f.orderChannel < |r.channels| {
      OrderWithinLimits(r, f);
    }
    if f.split.Some? {
      var s := f.split.value;
      G.SizeAfter(r.fragments, G.Arrival(s.id, s.index, s.count, f.payload, now));
    }
  }

  lemma {:induction false} FramesWithinLimits(r: Receiver, fs: seq<F.Frame>, now: nat)
    requires WithinLimits(r)
    ensures WithinLimits(r.HandleFrames(fs, now).0)
    decreases |fs|
  {
    if fs != [] {
      HandleFramesHead(r, fs, now);
      FrameWithinLimits(r, fs[0], now);
      FramesWithinLimits(r.HandleFrame(fs[0], now).0, fs[1..], now);
    }
  }

  lemma TakeWithinLimits(r: Receiver, e: Incoming)
    requires WithinLimits(r)
    ensures WithinLimits(Take(r, e).0)
  {
    match e
    case Packet(d, now) =>
      W.MarkKeepsSize(r.window, d.number);
      FramesWithinLimits(r.Noting(d), d.frames, now);
    case Tick(now) =>
      G.SubsetSize(r.fragments.Cleanup(now).splits.Keys, r.fragments.splits.Keys);
  }

  /** Whatever datagrams arrive at a receiver, in whatever order, it never holds more than 256 early
      messages for each of the 16 channels, and fragments of 512 messages. */
  lemma {:induction false} ReceiverBounded(ins: seq<Incoming>)
    ensures WithinLimits(Taken(NewReceiver(), ins).0)
  {
    if ins != [] {
      ReceiverBounded(ins[..|ins| - 1]);
      TakeWithinLimits(Taken(NewReceiver(), ins[..|ins| - 1]).0, ins[|ins| - 1]);
    }
  }

  // ----- the bytes of a datagram -----

  /** Under a number that reads as an empty frame, the bytes of a datagram have the effect of
      its frames, if they fit the receive buffer. */
  lemma BytesAreFrames(r: Receiver, d: Datagram, now: nat)
    requires F.AllFit(d.frames) && F.CarriedAll(d.frames) == d.frames && F.ReadsAsEmptyFrame(d.number)
    ensures var bytes := F.DatagramBytes(d.number, F.FramesBytes(d.frames));
            |bytes| <= 2048 ==> r.HandleBytes(Received(bytes), now) == r.HandleDatagram(d, now)
  {
    F.WireDeliversExactly(d.number, d.frames);
    if r.Accepts(d) {
      EmptyFrameIgnored(r.Noting(d), F.EMPTY_FRAME, d.frames, now);
    }
  }

  lemma EmptyFrameIgnored(r: Receiver, f: F.Frame, fs: seq<F.Frame>, now: nat)
    requires !r.crashed && f.payload == []
    ensures r.HandleFrames([f] + fs, now) == r.HandleFrames(fs, now)
  {
    HandleFramesHead(r, [f] + fs, now);
    assert ([f] + fs)[1..] == fs;
    assert [] + r.HandleFrames(fs, now).1 == r.HandleFrames(fs, now).1;
  }

  /** A single frame that does not fit the buffer is acknowledged and lost: the datagram counts
      as received, and nothing of the frame is handled. */
  lemma LongDatagramLost(r: Receiver, d: Datagram, now: nat)
    requires |d.frames| == 1 && |d.frames[0].payload| <= 8191 && F.ReadsAsEmptyFrame(d.number)
    requires |F.DatagramBytes(d.number, F.FramesBytes(d.frames))| > 2048
    ensures r.HandleBytes(Received(F.DatagramBytes(d.number, F.FramesBytes(d.frames))), now)
         == r.HandleDatagram(d.(frames := []), now)
  {
    var bytes, f := F.DatagramBytes(d.number, F.FramesBytes(d.frames)), d.frames[0];
    assert d.frames == [f] && [f][1..] == [];
    assert F.FramesBytes(d.frames) == F.FrameBytes(f) + [];
    var cut := F.FrameBytes(f)[..2044];
    assert Received(bytes) == F.DatagramBytes(d.number, cut);
    F.CutFrameRefused(f, 2044);
    F.DatagramKeepsNumber(d.number, cut);
    F.EmptyFirst(d.number, cut);
    F.FirstOfAll(U24Le(d.number) + cut, F.EMPTY_FRAME);
    assert F.ParseAll(U24Le(d.number) + cut).0 == [F.EMPTY_FRAME] + [];
    if r.Accepts(d) {
      EmptyFrameIgnored(r.Noting(d), F.EMPTY_FRAME, [], now);
    }
  }

  /** Under the numbers 16 to 31, and those like them, the payload of an ordinary message is
      parsed as frames, and these are handled. */
  lemma PayloadHandled(r: Receiver, number: u24, f: F.Frame, now: nat)
    requires F.ReadsAsEmptySplit(number) && f.reliability == F.ReliableOrdered && f.split.None?
    ensures r.HandleBytes(F.DatagramBytes(number, F.FrameBytes(f)), now)
         == r.HandleDatagram(Datagram(number, F.ParseAll(f.payload).0), now)
  {
    F.DatagramKeepsNumber(number, F.FrameBytes(f));
    F.PayloadTakenForFrames(number, f);
    var all := F.ParseAll(U24Le(number) + F.FrameBytes(f)).0;
    assert all == [all[0]] + F.ParseAll(f.payload).0;
    if r.Accepts(Datagram(number, [])) {
      EmptyFrameIgnored(r.Noting(Datagram(number, [])), all[0], F.ParseAll(f.payload).0, now);
    }
  }

  lemma HiddenDisconnect(r: Receiver, f: F.Frame, now: nat)
    requires f.reliability == F.ReliableOrdered && f.split.None? && r.Accepts(Datagram(16, []))
    requires F.ParseAll(f.payload).0 == [F.EMPTY_FRAME.(payload := [ID_DISCONNECT])]
    ensures var (r', out) := r.HandleBytes(F.DatagramBytes(16, F.FrameBytes(f)), now); r'.closed && out == []
  {
    var d := Datagram(16, F.ParseAll(f.payload).0);
    PayloadHandled(r, 16, f, now);
    AcceptsByNumber(r, Datagram(16, []), d);
    DisconnectHandled(r, d, now);
  }

  lemma AcceptsByNumber(r: Receiver, d: Datagram, e: Datagram)
    requires d.number == e.number
    ensures r.Accepts(d) <==> r.Accepts(e)
  {
  }

  /** For instance, the seventeenth datagram of a connection, if it is a message of these four
      bytes, closes the receiver. */
  lemma MessageCloses(s: Sender, r: Receiver, payload: Data, now: nat)
    requires Mask24(s.sendSeq) == 16 && payload == [0x00, 0x00, 0x08, 0x15]
    requires r.Accepts(s.NextDatagram(None, payload))
    ensures var f := s.NextDatagram(None, payload).frames[0];
            var (r', out) := r.HandleBytes(F.DatagramBytes(16, F.FrameBytes(f)), now);
            r'.closed && out == []
  {
    DisconnectParsed(payload);
    HiddenDisconnect(r, s.NextDatagram(None, payload).frames[0], now);
  }

  lemma DisconnectHandled(r: Receiver, d: Datagram, now: nat)
    requires |d.frames| == 1 && d.frames[0].payload == [ID_DISCONNECT] && r.Accepts(d)
    ensures r.HandleDatagram(d, now).0.closed && r.HandleDatagram(d, now).1 == []
  {
    OneFrameDatagram(r, d, now);
  }

  lemma DisconnectParsed(payload: Data)
    requires payload == [0x00, 0x00, 0x08, 0x15]
    ensures F.ParseAll(payload) == ([F.EMPTY_FRAME.(payload := [ID_DISCONNECT])], None)
  {
    assert payload[3..] == [0x15] && payload[1..3] == [0x00, 0x08];
    assert [0x15 as byte][..1] == [0x15] && [0x15 as byte][1..] == [];
    var f := F.EMPTY_FRAME.(payload := [ID_DISCONNECT]);
    assert F.LengthBytes(ReadU16Be([0x00, 0x08])) == 1;
    assert F.ParseBody(F.Unreliable, false, 1, [0x15]) == Ok((f, []));
    assert F.ParseFrame(payload) == Ok((f, []));
    assert F.ParseAll(payload) == ([f] + F.ParseAll([]).0, F.ParseAll([]).1);
    assert [f] + [] == [f];
  }

  /** Under another number with a low byte below 16, the application is handed leading bytes of
      the frames, which are headers, as if they were a message. */
  lemma HeadersDelivered(r: Receiver, number: u24, frames: Data, now: nat)
    requires number % 0x100 < 0x10 && F.NumberLength(number) <= |frames|
    requires Passes(frames[..F.NumberLength(number)])
    requires r.Accepts(Datagram(number, []))
    ensures var out := r.HandleBytes(F.DatagramBytes(number, frames), now).1;
            out != [] && out[0] == Direct(frames[..F.NumberLength(number)])
  {
    var bytes := U24Le(number) + frames;
    F.DatagramKeepsNumber(number, frames);
    F.HeaderTakenForPayload(number, frames);
    var f := F.EMPTY_FRAME.(payload := frames[..F.NumberLength(number)]);
    F.FirstOfAll(bytes, f);
    var d := Datagram(number, F.ParseAll(bytes).0);
    assert r.HandleBytes(F.DatagramBytes(number, frames), now) == r.Noting(d).HandleFrames(d.frames, now);
    assert r.Noting(d).HandleFrame(f, now) == (r.Noting(d), [Direct(f.payload)]);
  }

  /** For instance, the sender's datagram number 0x080000, if it is a single frame, makes the
      receiver hand over the byte 0x60, which are the flags of that frame. */
  lemma FlagsDelivered(s: Sender, r: Receiver, payload: Data, now: nat)
    requires Mask24(s.sendSeq) == 0x08_0000 && |payload| <= 8191
    requires r.Accepts(s.NextDatagram(None, payload))
    ensures var d := s.NextDatagram(None, payload);
            var out := r.HandleBytes(F.DatagramBytes(d.number, F.FramesBytes(d.frames)), now).1;
            out != [] && out[0] == Direct([0x60])
  {
    var d := s.NextDatagram(None, payload);
    var bytes := F.FramesBytes(d.frames);
    assert bytes[..1] == [0x60];
    assert F.NumberLength(0x08_0000) == 1;
    HeadersDelivered(r, d.number, bytes, now);
  }

  /** Where the cutting loop stands inside the data, the next chunk starts. */
  lemma CutHead(data: Data, size: nat, start: nat, chunks: seq<Data>, index: nat)
    requires size > 0 && start < |data| && index <= |chunks| && chunks[index..] == G.ChunksFrom(data, size, start)
    ensures index < |chunks| && chunks[index] == data[start..G.Min(start + size, |data|)]
    ensures chunks[index + 1..] == G.ChunksFrom(data, size, start + size)
  {
    assert chunks[index..][0] == chunks[index];
    assert chunks[index..][1..] == chunks[index + 1..];
  }

  // ----- the shared state of an endpoint -----

  ghost function States(cs: seq<O.OrderedChannel>): (states: seq<O.ChannelState>)
    reads cs
    ensures |states| == |cs| && forall i :: 0 <= i < |cs| ==> states[i] == cs[i].State()
  {
    seq(|cs|, i requires 0 <= i < |cs| reads cs => cs[i].State())
  }

  method MakeChannels(n: nat) returns (cs: seq<O.OrderedChannel>)
    ensures |cs| == n && fresh(cs)
    ensures forall i :: 0 <= i < n ==> cs[i].State() == O.New()
    ensures forall i, j :: 0 <= i < j < n ==> cs[i] != cs[j]
  {
    cs := [];
    while |cs| < n
      invariant |cs| <= n && fresh(cs)
      invariant forall i :: 0 <= i < |cs| ==> cs[i].State() == O.New()
      invariant forall i, j :: 0 <= i < j < |cs| ==> cs[i] != cs[j]
    {
      var c := new O.OrderedChannel();
      cs := cs + [c];
    }
  }

  class Endpoint {
    const sendSeq: AtomicU24
    const messageIndex: AtomicU24
    const orderIndex: AtomicU24
    var splitId: u16
    const mtu: u16
    const sendQueue: S.SendQueue<Datagram>
    const recvWindow: W.RecvWindow
    const fragmentQueue: G.FragmentQueue
    const channels: seq<O.OrderedChannel>
    var pendingAcks: A.AckRangeList
    const metrics: M.ConnectionMetrics
    var closed: bool
    var crashed: bool

    ghost predicate Valid()
      reads this, pendingAcks
    {
      && sendSeq != messageIndex && sendSeq != orderIndex && messageIndex != orderIndex
      && pendingAcks.Valid()
      && |channels| == 16 && forall i, j :: 0 <= i < j < |channels| ==> channels[i] != channels[j]
    }

    /** The sending half; `cut` is the fragmented send the send task is in the middle of. */
    ghost function Tx(cut: Option<Cut>): Sender
      reads this, sendSeq, messageIndex, orderIndex, sendQueue
    {
      Sender(sendSeq.raw, messageIndex.raw, orderIndex.raw, splitId, mtu, sendQueue.State(), cut)
    }

    ghost function Rx(): Receiver
      reads this, recvWindow, recvWindow.received, pendingAcks, channels, fragmentQueue
    {
      Receiver(recvWindow.State(), pendingAcks.ranges, States(channels), fragmentQueue.State(), closed, crashed)
    }

    constructor (mtu: u16)
      ensures Valid() && Tx(None) == NewSender(mtu) && Rx() == NewReceiver()
      ensures metrics.rtt == M.INITIAL_RTT
    {
      sendSeq := new AtomicU24(0);
      messageIndex := new AtomicU24(0);
      orderIndex := new AtomicU24(0);
      splitId := 0;
      this.mtu := mtu;
      sendQueue := new S.SendQueue(2048);
      recvWindow := new W.RecvWindow(2048);
      fragmentQueue := new G.FragmentQueue(512);
      var cs := MakeChannels(16);
      channels := cs;
      pendingAcks := new A.AckRangeList();
      metrics := new M.ConnectionMetrics();
      closed, crashed := false, false;
      new;
      assert States(channels) == NewChannels(16);
    }

    /** Frames a payload for channel 0, sends its datagram and queues it. */
    method SendFrame(split: Option<F.SplitInfo>, payload: Data, now: nat, ghost cut: Option<Cut>)
      returns (d: Datagram)
      requires Valid()
      modifies sendSeq, messageIndex, orderIndex, sendQueue
      ensures Valid()
      ensures Tx(cut) == old(Tx(cut)).Emit(split, payload, now)
      ensures d == old(Tx(cut)).NextDatagram(split, payload)
    {
      var message := messageIndex.FetchAdd(1);
      var order := orderIndex.FetchAdd(1);
      var frame := F.Frame(F.ReliableOrdered, Some(message), None, Some(order), 0, split, payload);
      var number := sendSeq.FetchAdd(1);
      d := Datagram(number, [frame]);
      var _ := sendQueue.Insert(number, d, now);
    }

    /** Sends the chunk that starts at `chunkStart`. */
    method SendChunk(data: Data, id: u16, totalCount: u32, index: nat, chunkStart: nat, now: nat,
                     ghost chunks: seq<Data>)
      returns (d: Datagram)
      requires Valid() && ChunkSizeFor(mtu) > 0 && chunkStart < |data| && index <= |chunks|
      requires chunks[index..] == G.ChunksFrom(data, ChunkSizeFor(mtu), chunkStart)
      modifies sendSeq, messageIndex, orderIndex, sendQueue
      ensures Valid() && old(Tx(CutBefore(chunks, id, totalCount, index))).Cutting()
      ensures Tx(CutBefore(chunks, id, totalCount, index + 1)) == old(Tx(CutBefore(chunks, id, totalCount, index))).EmitFragment(now)
      ensures d == old(Tx(CutBefore(chunks, id, totalCount, index))).NextFragment()
      ensures index < |chunks| && chunks[index + 1..] == G.ChunksFrom(data, ChunkSizeFor(mtu), chunkStart + ChunkSizeFor(mtu))
    {
      var chunkSize: nat := ChunkSizeFor(mtu);
      CutHead(data, chunkSize, chunkStart, chunks, index);
      var chunkEnd := G.Min(chunkStart + chunkSize, |data|);
      var split := F.SplitInfo(totalCount, id, AsU32(index));
      d := SendFrame(Some(split), data[chunkStart..chunkEnd], now, CutBefore(chunks, id, totalCount, index));
    }

    /** Sends the chunks one after the other, for a send begun as in `s`. */
    method SendChunks(data: Data, id: u16, totalCount: u32, chunkSize: nat, clock: nat -> nat,
                      ghost chunks: seq<Data>, ghost s: Sender)
      returns (ds: seq<Datagram>)
      requires Valid() && chunkSize == ChunkSizeFor(mtu) > 0 && chunks == G.ChunksFrom(data, chunkSize, 0)
      requires s == Tx(CutBefore(chunks, id, totalCount, 0))
      modifies sendSeq, messageIndex, orderIndex, sendQueue
      ensures Valid()
      ensures (Tx(None), ds) == Fragmented(s, |chunks|, clock)
    {
      assert chunks[0..] == chunks;
      ds := [];
      var index: nat, chunkStart: nat := 0, 0;
      while chunkStart < |data|
        invariant Valid() && index <= |chunks|
        invariant chunks[index..] == G.ChunksFrom(data, chunkSize, chunkStart)
        invariant Tx(CutBefore(chunks, id, totalCount, index)) == Fragmented(s, index, clock).0
        invariant ds == Fragmented(s, index, clock).1
        decreases |chunks| - index
      {
        var d := SendChunk(data, id, totalCount, index, chunkStart, clock(index), chunks);
        FragmentedNext(s, index, clock);
        ds := ds + [d];
        index := index + 1;
        chunkStart := chunkStart + chunkSize;
      }
    }

    /** Cuts a payload and sends its fragments; `clock` gives the time of each. */
    method SendFragmented(data: Data, clock: nat -> nat) returns (ds: seq<Datagram>)
      requires Valid() && ChunkSizeFor(mtu) > 0
      modifies this`splitId, sendSeq, messageIndex, orderIndex, sendQueue
      ensures Valid()
      ensures var n := |G.Chunks(data, ChunkSizeFor(mtu))|;
              (Tx(None), ds) == Fragmented(old(Tx(None)).StartCut(data), n, clock)
    {
      var id := splitId;
      ghost var s := Tx(None).StartCut(data);
      splitId := AsU16(splitId + 1);
      var chunkSize := ChunkSizeFor(mtu);
      var totalCount := Announced(|data|, chunkSize);
      ds := SendChunks(data, id, totalCount, chunkSize, clock, G.Chunks(data, chunkSize), s);
    }

    /** What the send task does with one payload. */
    method Submit(data: Data, clock: nat -> nat) returns (ds: seq<Datagram>)
      requires Valid() && (mtu != 80 || |data| <= 20)
      modifies this`splitId, sendSeq, messageIndex, orderIndex, sendQueue
      ensures Valid()
      ensures |data| <= old(Tx(None)).SingleSize() ==>
                && Tx(None) == old(Tx(None)).Emit(None, data, clock(0))
                && ds == [old(Tx(None)).NextDatagram(None, data)]
      ensures |data| > old(Tx(None)).SingleSize() ==>
                (Tx(None), ds) == Fragmented(old(Tx(None)).StartCut(data), |G.Chunks(data, ChunkSizeFor(mtu))|, clock)
    {
      if |data| <= SingleSizeFor(mtu) {
        var d := SendFrame(None, data, clock(0), None);
        ds := [d];
      } else {
        ds := SendFragmented(data, clock);
      }
    }

    method HandleAck(packet: seq<byte>)
      requires Valid()
      modifies sendQueue
      ensures Valid()
      ensures Tx(None) == old(Tx(None)).HandleAck(packet)
    {
      var decoded := C.DecodeAckNack(packet);
      if decoded.Ok? && decoded.value.0 {
        sendQueue.HandleAck(decoded.value.1.ranges);
      }
    }

    method FlushAcks() returns (packet: Option<seq<byte>>)
      requires Valid()
      modifies this`pendingAcks
      ensures Valid() && (pendingAcks == old(pendingAcks) || fresh(pendingAcks))
      ensures (Rx(), packet) == old(Rx()).FlushAcks()
    {
      if pendingAcks.ranges == [] {
        return None;
      }
      var list := pendingAcks;
      pendingAcks := new A.AckRangeList();
      var bytes := C.EncodeAck(list);
      packet := Some(bytes);
    }

    method CheckRetransmissions(now: nat) returns (packets: seq<Datagram>)
      requires Valid()
      modifies sendQueue
      ensures Valid()
      ensures Tx(None) == old(Tx(None)).Resend(now, metrics.rtt)
      ensures var expired := old(Tx(None)).queue.Expired(now, (metrics.rtt * 3) * 3);
              |packets| == |expired| && forall i :: 0 <= i < |packets| ==> packets[i] == expired[i].1
    {
      var timeout := metrics.rtt * 3;
      var expired := sendQueue.GetExpired(now, timeout, 3);
      packets := [];
      for i := 0 to |expired|
        invariant |packets| == i && forall j :: 0 <= j < i ==> packets[j] == expired[j].1
      {
        packets := packets + [expired[i].1];
      }
    }

    method CleanupExpired(now: nat)
      requires Valid()
      modifies fragmentQueue
      ensures Valid() && Rx() == old(Rx()).Cleanup(now)
    {
      var _ := fragmentQueue.CleanupExpired(now);
    }

    method DeliverPayload(f: F.Frame, now: nat) returns (out: seq<Delivery>)
      requires Valid()
      modifies fragmentQueue
      ensures Valid() && (Rx(), out) == old(Rx()).Deliver(f, now)
    {
      match f.split
      case Some(split) =>
        var whole := fragmentQueue.Insert(split.id, split.index, split.count, f.payload, now);
        out := if whole.Some? then [Reassembled(split.id, whole.value)] else [];
      case None =>
        out := [Direct(f.payload)];
    }

    /** Passes a payload through the ordered channel it names. */
    method OrderPayload(f: F.Frame) returns (out: seq<Delivery>)
      requires Valid() && f.orderChannel < |channels|
      modifies channels[f.orderChannel]
      ensures Valid() && (Rx(), out) == old(Rx()).Order(f)
    {
      ghost var was := States(channels);
      var ready := channels[f.orderChannel].Insert(f.orderIndex.GetOr(0), f.payload);
      out := AllInOrder(ready);
      assert States(channels) == was[f.orderChannel := channels[f.orderChannel].State()];
    }

    /** A login packet behind a disconnect; the reply to a connection request is left out. */
    method HandleLogin(f: F.Frame)
      requires Valid() && f.payload != []
      modifies this`crashed, channels
      ensures Valid() && Rx() == old(Rx()).Login(f)
    {
      if f.payload[0] == ID_REQUEST_ACCEPTED || !f.reliability.IsOrdered() || f.orderIndex.None? {
        return;
      }
      if f.orderChannel >= |channels| {
        crashed := true;
        return;
      }
      if channels[f.orderChannel].nextIndex == f.orderIndex.value {
        var _ := OrderPayload(f);
      }
    }

    method HandleFrame(f: F.Frame, now: nat) returns (out: seq<Delivery>)
      requires Valid()
      modifies this`closed, this`crashed, channels, fragmentQueue
      ensures Valid() && (Rx(), out) == old(Rx()).HandleFrame(f, now)
    {
      out := [];
      if f.payload == [] {
        return;
      }
      if IsControl(f.payload[0]) {
        if f.payload[0] == ID_DISCONNECT {
          closed := true;
        }
        return;
      }
      if closed && IsLogin(f.payload[0]) {
        HandleLogin(f);
        return;
      }
      if f.reliability.IsOrdered() && f.split.None? {
        if f.orderChannel >= |channels| {
          crashed := true;
          return;
        }
        out := OrderPayload(f);
      } else {
        out := DeliverPayload(f, now);
      }
    }

    method HandleDatagram(d: Datagram, now: nat) returns (out: seq<Delivery>)
      requires Valid()
      modifies this`closed, this`crashed, recvWindow, recvWindow.received, pendingAcks, channels, fragmentQueue
      ensures Valid() && (Rx(), out) == old(Rx()).HandleDatagram(d, now)
    {
      out := [];
      if closed || crashed {
        return;
      }
      var isNew := recvWindow.MarkReceived(d.number);
      if isNew != Some(true) {
        return;
      }
      pendingAcks.Insert(d.number);
      out := HandleFrames(d.frames, now);
    }

    /** A datagram as it comes from the socket. */
    method HandleBytes(data: Data, now: nat) returns (out: seq<Delivery>)
      requires Valid()
      modifies this`closed, this`crashed, recvWindow, recvWindow.received, pendingAcks, channels, fragmentQueue
      ensures Valid() && (Rx(), out) == old(Rx()).HandleBytes(data, now)
    {
      var decoded := F.DecodeDatagram(data);
      if decoded.Err? {
        return [];
      }
      var frames, _ := F.DecodeAll(decoded.value.1);
      out := HandleDatagram(Datagram(decoded.value.0, frames), now);
    }

    method HandleFrames(fs: seq<F.Frame>, now: nat) returns (out: seq<Delivery>)
      requires Valid()
      modifies this`closed, this`crashed, channels, fragmentQueue
      ensures Valid() && (Rx(), out) == old(Rx()).HandleFrames(fs, now)
    {
      ghost var r := Rx();
      out := [];
      for i := 0 to |fs|
        invariant Valid()
        invariant out + Rx().HandleFrames(fs[i..], now).1 == r.HandleFrames(fs, now).1
        invariant Rx().HandleFrames(fs[i..], now).0 == r.HandleFrames(fs, now).0
      {
        HandleFramesFrom(Rx(), fs, i, now, out);
        var refused := Malformed(fs[i].payload)
                       || (closed && fs[i].payload != [] && fs[i].payload[0] == ID_REQUEST && |fs[i].payload| < 18);
        var more := HandleFrame(fs[i], now);
        out := out + more;
        if refused || crashed {
          return;
        }
      }
      assert out + [] == out;
    }
  }
}
