/**
 One direction of a connection as a state machine: a sender, a network that loses, repeats
 and reorders, and a receiver whose acknowledgements travel back over the same kind of
 network. The theorems hold in every state of every run.
 */
module Links {
  import opened Wrappers
  import opened Bytes
  import opened Uint24
  import opened Endpoints
  import A = AckRanges
  import C = AckCodec
  import F = Frames
  import S = SendQueues
  import O = OrderedChannels
  import G = Fragments

  /** What the sender put under an order index: a whole message, or a chunk of the
      `message`-th fragmented one. */
  datatype Slot = Whole(data: Data) | Piece(message: nat, index: nat)

  /** `wire` and `ackWire` hold everything ever sent: the network may deliver any of it, in any
      order, any number of times, or never. `unqueued` is the datagram that has left and is not
      yet in the send queue. The fields from `log` on are history: the messages
      submitted, the fragmented ones among them with the counts announced, the content of every order index, the numbers
      that entered the send queue, the numbers accepted by the window, and the deliveries. */
  datatype Link = Link(
    tx: Sender, rx: Receiver, wire: set<Datagram>, ackWire: set<seq<byte>>, unqueued: Option<Datagram>,
    log: seq<Data>, splits: seq<Data>, counts: seq<u32>, slots: seq<Slot>,
    entered: set<u24>, accepted: set<u24>, delivered: seq<Delivery>)

  function Start(mtu: u16): Link {
    Link(NewSender(mtu), NewReceiver(), {}, {}, None, [], [], [], [], {}, {}, [])
  }

  datatype Step =
    | Submit(data: Data)
    | Fragment
    | Enqueue(now: nat)
    | Arrive(d: Datagram, now: nat)
    | FlushAcks
    | AckArrives(packet: seq<byte>)
    | Resend(now: nat, rtt: nat)
    | Cleanup(now: nat)

  /** The send task takes up one message, or one fragment, at a time, and queues it before the
      next; at an MTU of 80 a message that needs fragments makes it panic. */
  ghost predicate Enabled(l: Link, step: Step) {
    match step
    case Submit(data) =>
      && l.tx.cut.None? && l.unqueued.None? && |data| < 0x1_0000_0000
      && (|data| <= l.tx.SingleSize() || l.tx.ChunkSize() > 0)
    case Fragment => l.tx.Cutting() && l.unqueued.None? && l.splits != []
    case Enqueue(_) => l.unqueued.Some?
    case Arrive(d, _) => d in l.wire
    case FlushAcks => true
    case AckArrives(packet) => packet in l.ackWire
    case Resend(_, _) => true
    case Cleanup(_) => true
  }

  /** A datagram leaves: it is on the wire, and about to be queued. */
  ghost function Sent(l: Link, tx: Sender, d: Datagram, slot: Slot, log: seq<Data>): Link {
    l.(tx := tx, wire := l.wire + {d}, unqueued := Some(d), log := log, slots := l.slots + [slot])
  }

  ghost function SubmitWhole(l: Link, data: Data): Link {
    Sent(l, l.tx.Launch(), l.tx.NextDatagram(None, data), Whole(data), l.log + [data])
  }

  ghost function SubmitCut(l: Link, data: Data): Link
    requires l.tx.ChunkSize() > 0
  {
    l.(tx := l.tx.StartCut(data), log := l.log + [data], splits := l.splits + [data],
       counts := l.counts + [Announced(|data|, l.tx.ChunkSize())])
  }

  ghost function SendFragment(l: Link): Link
    requires l.tx.Cutting() && l.splits != []
  {
    Sent(l, l.tx.LaunchFragment(), l.tx.NextFragment(), Piece(|l.splits| - 1, l.tx.cut.value.index), l.log)
  }

  /** The datagram enters the send queue if that has room. */
  ghost function QueueIt(l: Link, now: nat): Link
    requires l.unqueued.Some?
  {
    l.(tx := l.tx.Enqueue(l.unqueued.value, now), unqueued := None,
       entered := if |l.tx.queue.packets| < l.tx.queue.maxSize then l.entered + {l.unqueued.value.number}
                  else l.entered)
  }

  ghost function AckReceived(l: Link, packet: seq<byte>): Link {
    l.(tx := l.tx.HandleAck(Received(packet)))
  }

  ghost function Receive(l: Link, d: Datagram, now: nat): Link {
    var (rx, out) := l.rx.HandleDatagram(d, now);
    l.(rx := rx, delivered := l.delivered + out,
       accepted := if l.rx.Accepts(d) then l.accepted + {d.number} else l.accepted)
  }

  ghost function Flush(l: Link): Link {
    var (rx, packet) := l.rx.FlushAcks();
    l.(rx := rx, ackWire := if packet.Some? then l.ackWire + {packet.value} else l.ackWire)
  }

  ghost function Retransmit(l: Link, now: nat, rtt: nat): Link {
    var expired := l.tx.queue.Expired(now, (rtt * 3) * 3);
    l.(tx := l.tx.Resend(now, rtt), wire := l.wire + set i | 0 <= i < |expired| :: expired[i].1)
  }

  ghost function Next(l: Link, step: Step): Link
    requires Enabled(l, step)
  {
    match step
    case Submit(data) => if |data| <= l.tx.SingleSize() then SubmitWhole(l, data) else SubmitCut(l, data)
    case Fragment => SendFragment(l)
    case Enqueue(now) => QueueIt(l, now)
    case Arrive(d, now) => Receive(l, d, now)
    case FlushAcks => Flush(l)
    case AckArrives(packet) => AckReceived(l, packet)
    case Resend(now, rtt) => Retransmit(l, now, rtt)
    case Cleanup(now) => l.(rx := l.rx.Cleanup(now))
  }

  /** The states a run of steps goes through. */
  ghost predicate IsRun(mtu: u16, states: seq<Link>, steps: seq<Step>) {
    && |states| == |steps| + 1 && states[0] == Start(mtu)
    && forall i :: 0 <= i < |steps| ==> Enabled(states[i], steps[i]) && states[i + 1] == Next(states[i], steps[i])
  }

  /** Fewer order indices than the 24-bit numbers, and no more fragmented messages than
      16-bit split identifiers, have been used. */
  predicate Bounded(l: Link) {
    |l.slots| <= MODULUS && |l.splits| <= 0x1_0000
  }

  // ----- the sender's side of the invariant -----

  function ChunksOf(l: Link, message: nat): seq<Data>
    requires message < |l.splits| && l.tx.ChunkSize() > 0
  {
    G.Chunks(l.splits[message], l.tx.ChunkSize())
  }

  predicate SlotOk(l: Link, slot: Slot) {
    slot.Piece? ==>
      && slot.message < |l.splits| == |l.counts| && l.tx.ChunkSize() > 0
      && slot.index < |ChunksOf(l, slot.message)|
  }

  function SlotFrame(l: Link, k: u24, slot: Slot): F.Frame
    requires SlotOk(l, slot)
  {
    match slot
    case Whole(data) => F.Frame(F.ReliableOrdered, Some(k), None, Some(k), 0, None, data)
    case Piece(m, i) =>
      F.Frame(F.ReliableOrdered, Some(k), None, Some(k), 0,
              Some(F.SplitInfo(l.counts[m], AsU16(m), AsU32(i))), ChunksOf(l, m)[i])
  }

  /** The datagram is the one that was sent under its number. */
  ghost predicate Genuine(l: Link, d: Datagram) {
    && d.number < |l.slots|
    && SlotOk(l, l.slots[d.number])
    && d.frames == [SlotFrame(l, d.number, l.slots[d.number])]
  }

  ghost predicate SenderOk(l: Link) {
    && l.tx.sendSeq == l.tx.messageIndex == l.tx.orderIndex == |l.slots|
    && l.tx.splitId == AsU16(|l.splits|)
    && CutOk(l.tx, l.splits, l.counts) && CountsOk(l)
    && (forall m :: 0 <= m < |l.splits| ==> 0 < |l.splits[m]| < 0x1_0000_0000)
    && (forall d :: d in l.wire ==> Genuine(l, d))
    && (l.unqueued.Some? ==> Genuine(l, l.unqueued.value))
    && QueueOk(l, l.tx.queue.packets)
  }

  /** The count announced is the number of chunks, or zero where the chunk size has wrapped. */
  ghost predicate CountsOk(l: Link) {
    |l.counts| == |l.splits| && forall m :: 0 <= m < |l.splits| ==> CountOk(l.splits[m], l.counts[m], l.tx.ChunkSize())
  }

  ghost predicate CountOk(data: Data, count: u32, size: nat) {
    size > 0 && |G.Chunks(data, size)| < 0x1_0000_0000 && (count == |G.Chunks(data, size)| || count == 0)
  }

  /** What is genuine stays so while the histories grow. */
  ghost predicate Extends(l: Link, l': Link) {
    && l.slots <= l'.slots && l.splits <= l'.splits && l.counts <= l'.counts && l.tx.mtu == l'.tx.mtu
    && (|l.counts| == |l.splits| ==> |l'.counts| == |l'.splits|)
  }

  lemma GenuineExtends(l: Link, l': Link, d: Datagram)
    requires Extends(l, l') && Genuine(l, d)
    ensures Genuine(l', d)
  {
    var slot := l.slots[d.number];
    assert l'.slots[d.number] == slot;
    if slot.Piece? {
      assert l'.splits[slot.message] == l.splits[slot.message];
      assert l'.counts[slot.message] == l.counts[slot.message];
    }
  }

  /** The fragmented send under way is of the last message to be fragmented. */
  ghost predicate CutOk(tx: Sender, splits: seq<Data>, counts: seq<u32>) {
    tx.cut.Some? ==>
      && tx.Cutting() && splits != [] && |counts| == |splits| && tx.ChunkSize() > 0
      && tx.cut.value.chunks == G.Chunks(splits[|splits| - 1], tx.ChunkSize())
      && tx.cut.value.count == counts[|counts| - 1]
      && tx.cut.value.id == AsU16(|splits| - 1)
  }

  ghost predicate QueueOk(l: Link, packets: map<u32, S.Entry<Datagram>>) {
    forall k :: k in packets ==> Genuine(l, packets[k].packet) && packets[k].packet.number == k
  }

  lemma QueueExtends(l: Link, l': Link, packets: map<u32, S.Entry<Datagram>>)
    requires QueueOk(l, packets) && Extends(l, l')
    ensures QueueOk(l', packets)
  {
    forall k | k in packets ensures Genuine(l', packets[k].packet) {
      GenuineExtends(l, l', packets[k].packet);
    }
  }

  lemma SentOk(l: Link, slot: Slot, log: seq<Data>, split: Option<F.SplitInfo>, payload: Data, cut: Option<Cut>)
    requires SenderOk(l) && |l.slots| < MODULUS && SlotOk(l, slot)
    requires l.tx.NextDatagram(split, payload).frames == [SlotFrame(l, |l.slots|, slot)]
    requires CutOk(l.tx.(cut := cut), l.splits, l.counts)
    ensures SenderOk(Sent(l, l.tx.Launch().(cut := cut), l.tx.NextDatagram(split, payload), slot, log))
  {
    var d := l.tx.NextDatagram(split, payload);
    var l' := Sent(l, l.tx.Launch().(cut := cut), d, slot, log);
    assert Genuine(l', d);
    forall e | e in l.wire ensures Genuine(l', e) {
      GenuineExtends(l, l', e);
    }
    QueueExtends(l, l', l.tx.queue.packets);
  }

  lemma SubmitWholeOk(l: Link, data: Data)
    requires SenderOk(l) && l.tx.cut.None? && |l.slots| < MODULUS && |data| <= l.tx.SingleSize()
    ensures SenderOk(SubmitWhole(l, data))
  {
    SentOk(l, Whole(data), l.log + [data], None, data, None);
  }

  lemma CountsGrow(l: Link, data: Data)
    requires CountsOk(l) && l.tx.ChunkSize() > 0 && 0 < |data| < 0x1_0000_0000
    ensures CountsOk(SubmitCut(l, data))
  {
    AnnouncedCount(l.tx.mtu, data);
    assert CountOk(data, Announced(|data|, l.tx.ChunkSize()), l.tx.ChunkSize());
  }

  lemma SubmitCutOk(l: Link, data: Data)
    requires SenderOk(l) && l.tx.cut.None? && l.tx.ChunkSize() > 0 && 0 < |data| < 0x1_0000_0000
    ensures SenderOk(SubmitCut(l, data))
  {
    var l' := SubmitCut(l, data);
    NextSplitId(|l.splits|);
    assert CutOk(l'.tx, l'.splits, l'.counts);
    CountsGrow(l, data);
    forall d | Genuine(l, d) ensures Genuine(l', d) {
      GenuineExtends(l, l', d);
    }
  }

  lemma QueueItOk(l: Link, now: nat)
    requires SenderOk(l) && l.unqueued.Some?
    ensures SenderOk(QueueIt(l, now))
  {
    var l', d := QueueIt(l, now), l.unqueued.value;
    forall e | Genuine(l, e) ensures Genuine(l', e) {
      GenuineExtends(l, l', e);
    }
  }

  lemma NextSplitId(n: nat)
    ensures AsU16(AsU16(n) + 1) == AsU16(n + 1)
  {
  }

  /** The fragment that leaves is the chunk its slot describes. */
  lemma FragmentFrame(l: Link, k: u24)
    requires CutOk(l.tx, l.splits, l.counts) && l.tx.Cutting() && l.splits != []
    requires l.tx.sendSeq == l.tx.messageIndex == l.tx.orderIndex == k
    ensures var slot := Piece(|l.splits| - 1, l.tx.cut.value.index);
            SlotOk(l, slot) && l.tx.NextFragment().frames == [SlotFrame(l, k, slot)]
  {
  }

  lemma CutAdvances(tx: Sender, splits: seq<Data>, counts: seq<u32>)
    requires CutOk(tx, splits, counts) && tx.Cutting()
    ensures CutOk(tx.(cut := tx.NextCut()), splits, counts)
  {
  }

  lemma FragmentSenderOk(l: Link)
    requires SenderOk(l) && l.tx.Cutting() && l.splits != [] && |l.slots| < MODULUS
    ensures SenderOk(SendFragment(l))
  {
    var slot := Piece(|l.splits| - 1, l.tx.cut.value.index);
    FragmentFrame(l, |l.slots|);
    CutAdvances(l.tx, l.splits, l.counts);
    SentOk(l, slot, l.log, Some(l.tx.CutInfo()), l.tx.CutChunk(), l.tx.NextCut());
  }

  lemma SameSenderOk(l: Link, l': Link)
    requires SenderOk(l) && l'.slots == l.slots && l'.splits == l.splits && l'.unqueued == l.unqueued
    requires l'.counts == l.counts
    requires l'.tx == l.tx.(queue := l'.tx.queue)
    requires forall d :: d in l'.wire ==> d in l.wire || Genuine(l, d)
    requires forall k :: k in l'.tx.queue.packets ==>
               k in l.tx.queue.packets && l'.tx.queue.packets[k].packet == l.tx.queue.packets[k].packet
    ensures SenderOk(l')
  {
    forall d | Genuine(l, d) ensures Genuine(l', d) {
      GenuineExtends(l, l', d);
    }
  }

  lemma AckSenderOk(l: Link, packet: seq<byte>)
    requires SenderOk(l)
    ensures SenderOk(AckReceived(l, packet))
  {
    var l' := AckReceived(l, packet);
    if l'.tx != l.tx {
      var ranges := C.Decoded(Received(packet)).value.1;
      S.HandleAckRemoves(l.tx.queue, ranges);
    }
    SameSenderOk(l, l');
  }

  lemma ResendSenderOk(l: Link, now: nat, rtt: nat)
    requires SenderOk(l)
    ensures SenderOk(Retransmit(l, now, rtt))
  {
    var timeout := (rtt * 3) * 3;
    S.ExpireKeepsPackets(l.tx.queue, now, timeout);
    S.ExpiredIsLate(l.tx.queue, now, timeout);
    SameSenderOk(l, Retransmit(l, now, rtt));
  }

  lemma SenderStep(l: Link, step: Step)
    requires SenderOk(l) && Enabled(l, step) && Bounded(Next(l, step))
    ensures SenderOk(Next(l, step))
  {
    match step
    case Submit(data) =>
      if |data| <= l.tx.SingleSize() {
        assert |Next(l, step).slots| == |l.slots| + 1;
        SubmitWholeOk(l, data);
      } else {
        SubmitCutOk(l, data);
      }
    case Fragment => FragmentSenderOk(l);
    case Enqueue(now) => QueueItOk(l, now);
    case AckArrives(packet) => AckSenderOk(l, packet);
    case Resend(now, rtt) => ResendSenderOk(l, now, rtt);
    case Arrive(_, _) => SameSenderOk(l, Next(l, step));
    case FlushAcks => SameSenderOk(l, Next(l, step));
    case Cleanup(_) => SameSenderOk(l, Next(l, step));
  }

  // ----- acknowledgements -----

  /** What is received of the packet is an acknowledgement, and one of its records covers the
      number. */
  ghost predicate Names(packet: seq<byte>, x: u24) {
    match C.ParsePacket(Received(packet))
    case Ok((true, records)) => A.Covers(records, x)
    case _ => false
  }

  /** The packet acknowledges none but the given numbers. */
  ghost predicate AcksOnly(packet: seq<byte>, accepted: set<u24>) {
    forall x: u24 :: Names(packet, x) ==> x in accepted
  }

  /** Pending and sent acknowledgements name accepted numbers only, and what entered the queue
      is there until its number has been accepted. */
  ghost predicate AcksOk(l: Link) {
    && A.Canonical(l.rx.acks)
    && (forall x: u24 :: A.Covers(l.rx.acks, x) ==> x in l.accepted)
    && (forall p :: p in l.ackWire ==> AcksOnly(p, l.accepted))
    && (forall k :: k in l.entered ==> k in l.tx.queue.packets || k in l.accepted)
  }

  lemma ArriveAcksOk(l: Link, d: Datagram, now: nat)
    requires AcksOk(l) && d in l.wire
    ensures AcksOk(Receive(l, d, now))
  {
    var l' := Receive(l, d, now);
    if l.rx.Accepts(d) {
      var r := l.rx.Noting(d);
      HandleFramesKeeps(r, d.frames, now);
      A.InsertedIsCorrect(l.rx.acks, d.number);
    }
  }

  /** A list that fits the receive buffer names exactly its numbers. */
  lemma ShortNames(acks: seq<A.AckRange>, x: u24)
    requires A.Canonical(acks) && |C.PacketBytes(C.ID_ACK, acks)| <= 2048
    ensures Names(C.PacketBytes(C.ID_ACK, acks), x) <==> A.Covers(acks, x)
  {
    C.ReceivedShort(C.ID_ACK, acks);
    C.DecodedDenotes(Received(C.PacketBytes(C.ID_ACK, acks)));
  }

  lemma LongNames(acks: seq<A.AckRange>, x: u24)
    requires A.Canonical(acks) && Names(C.PacketBytes(C.ID_ACK, acks), x)
    ensures A.Covers(acks, x)
  {
    C.ReceivedDecoded(C.ID_ACK, acks);
    C.DecodedDenotes(Received(C.PacketBytes(C.ID_ACK, acks)));
    PrefixCovers(acks, AsU16(|acks|), x);
  }

  /** What is received of a flushed list names its numbers, if it fits the receive buffer, and
      never another. */
  lemma FlushNames(acks: seq<A.AckRange>, x: u24)
    requires A.Canonical(acks)
    ensures var packet := C.PacketBytes(C.ID_ACK, acks);
            && (Names(packet, x) ==> A.Covers(acks, x))
            && (|packet| <= 2048 ==> (Names(packet, x) <==> A.Covers(acks, x)))
  {
    var packet := C.PacketBytes(C.ID_ACK, acks);
    if |packet| <= 2048 {
      ShortNames(acks, x);
    }
    if Names(packet, x) {
      LongNames(acks, x);
    }
  }

  lemma PrefixCovers(rs: seq<A.AckRange>, n: nat, x: u24)
    requires n <= |rs| && A.Covers(rs[..n], x)
    ensures A.Covers(rs, x)
  {
    var i :| 0 <= i < n && rs[..n][i].Contains(x);
    assert rs[i].Contains(x);
  }

  lemma FlushAcksOk(l: Link)
    requires AcksOk(l)
    ensures AcksOk(Flush(l))
  {
    if l.rx.acks != [] {
      var packet := C.PacketBytes(C.ID_ACK, l.rx.acks);
      forall x: u24 | Names(packet, x) ensures x in l.accepted {
        FlushNames(l.rx.acks, x);
      }
      assert AcksOnly(packet, l.accepted);
    }
  }

  /** An acknowledgement that arrives removes exactly the entries it names. */
  lemma AckRemoves(l: Link, packet: seq<byte>)
    ensures var l' := AckReceived(l, packet);
            && (forall k: u24 :: k in l'.tx.queue.packets <==> k in l.tx.queue.packets && !Names(packet, k))
            && (forall k: u32 :: k in l'.tx.queue.packets ==>
                  k in l.tx.queue.packets && l'.tx.queue.packets[k] == l.tx.queue.packets[k])
  {
    AckHandled(l.tx, Received(packet));
  }

  lemma AckArrivesOk(l: Link, packet: seq<byte>)
    requires AcksOk(l) && packet in l.ackWire
    ensures AcksOk(AckReceived(l, packet))
  {
    assert AcksOnly(packet, l.accepted);
    AckRemoves(l, packet);
  }

  lemma AcksStep(l: Link, step: Step)
    requires SenderOk(l) && AcksOk(l) && Enabled(l, step) && Bounded(Next(l, step))
    ensures AcksOk(Next(l, step))
  {
    match step
    case Arrive(d, now) => ArriveAcksOk(l, d, now);
    case FlushAcks => FlushAcksOk(l);
    case AckArrives(packet) => AckArrivesOk(l, packet);
    case Resend(now, rtt) => S.ExpireKeepsPackets(l.tx.queue, now, (rtt * 3) * 3);
    case Submit(_) =>
    case Fragment =>
    case Enqueue(_) =>
    case Cleanup(_) =>
  }

  // ----- the receiver's side -----

  /** The payloads delivered through the ordered channel. */
  function Ordered(out: seq<Delivery>): seq<Data> {
    if out == [] then []
    else Ordered(out[..|out| - 1]) + if out[|out| - 1].InOrder? then [out[|out| - 1].data] else []
  }

  lemma {:induction false} OrderedConcat(out: seq<Delivery>, more: seq<Delivery>)
    ensures Ordered(out + more) == Ordered(out) + Ordered(more)
  {
    if more == [] {
      assert out + more == out;
    } else {
      assert (out + more)[..|out + more| - 1] == out + more[..|more| - 1];
      OrderedConcat(out, more[..|more| - 1]);
    }
  }

  lemma {:induction false} OrderedAll(ready: seq<Data>)
    ensures Ordered(AllInOrder(ready)) == ready
  {
    if ready != [] {
      var front := ready[..|ready| - 1];
      OrderedAll(front);
      assert AllInOrder(ready)[..|ready| - 1] == AllInOrder(front);
    }
  }

  /** A whole message that the receiver does not keep to itself. */
  predicate Orderly(slot: Slot) {
    slot.Whole? && Passes(slot.data)
  }

  /** The orderly messages with their order indices. */
  ghost function WholePackets(slots: seq<Slot>): set<O.Packet> {
    set k | 0 <= k < |slots| && k < MODULUS && Orderly(slots[k]) :: O.Packet(k, slots[k].data)
  }

  ghost predicate SplitsOk(l: Link, fragments: G.FragmentState) {
    forall id :: id in fragments.splits ==>
      id < |l.splits| && l.tx.ChunkSize() > 0 && G.Collects(fragments.splits[id], ChunksOf(l, id))
  }

  /** Every delivery so far came through the channel or is a whole fragmented message. */
  ghost predicate DeliveriesOk(splits: seq<Data>, out: seq<Delivery>) {
    forall i :: 0 <= i < |out| ==> out[i].InOrder? || (out[i].Reassembled? && out[i].id < |splits| && out[i].data == splits[out[i].id])
  }

  ghost predicate ReceiverOk(l: Link) {
    && l.rx.channels != []
    && O.Faithful(l.rx.channels[0], Ordered(l.delivered), WholePackets(l.slots))
    && SplitsOk(l, l.rx.fragments)
    && DeliveriesOk(l.splits, l.delivered)
  }

  lemma FaithfulGrows(c: O.ChannelState, out: seq<Data>, slots: seq<Slot>, slots': seq<Slot>)
    requires O.Faithful(c, out, WholePackets(slots)) && slots <= slots'
    ensures O.Faithful(c, out, WholePackets(slots'))
  {
    forall k | 0 <= k < |slots| && k < MODULUS && Orderly(slots[k])
      ensures O.Packet(k, slots[k].data) in WholePackets(slots')
    {
      assert slots'[k] == slots[k];
    }
  }

  lemma SplitsGrow(l: Link, l': Link)
    requires Extends(l, l') && SplitsOk(l, l.rx.fragments) && l'.rx == l.rx
    ensures SplitsOk(l', l'.rx.fragments)
  {
  }

  lemma OrderOk(l: Link, r: Receiver, out: seq<Data>, k: u24, payload: Data)
    requires r.channels != [] && O.Faithful(r.channels[0], out, WholePackets(l.slots))
    requires k < |l.slots| && l.slots[k] == Whole(payload) && Passes(payload)
    ensures var (r', more) := r.Order(SlotFrame(l, k, l.slots[k]));
            && r'.channels != [] && O.Faithful(r'.channels[0], out + Ordered(more), WholePackets(l.slots))
            && r' == r.(channels := r'.channels)
            && DeliveriesOk(l.splits, more)
  {
    var p := O.Packet(k, payload);
    O.InsertFaithful(r.channels[0], out, WholePackets(l.slots), p);
    assert p in WholePackets(l.slots);
    assert WholePackets(l.slots) + {p} == WholePackets(l.slots);
    OrderedAll(r.channels[0].Insert(k, payload).1);
  }

  /** A piece names the number of chunks, or, where the chunk size has wrapped, none at all. */
  lemma PieceFrame(l: Link, k: u24, slot: Slot)
    requires SlotOk(l, slot) && slot.Piece? && |l.splits| <= 0x1_0000 && CountsOk(l)
    ensures var f, n := SlotFrame(l, k, slot), |ChunksOf(l, slot.message)|;
            && n < 0x1_0000_0000 && f.payload == ChunksOf(l, slot.message)[slot.index]
            && (f.split == Some(F.SplitInfo(n, slot.message, slot.index))
                || f.split == Some(F.SplitInfo(0, slot.message, slot.index)))
  {
    assert CountOk(l.splits[slot.message], l.counts[slot.message], l.tx.ChunkSize());
  }

  lemma DeliverSplit(r: Receiver, f: F.Frame, s: F.SplitInfo, now: nat)
    requires f.split == Some(s)
    ensures var (fragments, whole) := r.fragments.Insert(s.id, s.index, s.count, f.payload, now);
            && r.Deliver(f, now).0 == r.(fragments := fragments)
            && Ordered(r.Deliver(f, now).1) == []
            && (forall d :: d in r.Deliver(f, now).1 ==> whole.Some? && d == Reassembled(s.id, whole.value))
  {
    var whole := r.fragments.Insert(s.id, s.index, s.count, f.payload, now).1;
    if whole.Some? {
      assert [Reassembled(s.id, whole.value)][..0] == [];
    }
  }

  lemma PieceOk(l: Link, r: Receiver, k: u24, now: nat)
    requires SplitsOk(l, r.fragments) && Bounded(l) && CountsOk(l)
    requires k < |l.slots| && SlotOk(l, l.slots[k]) && l.slots[k].Piece?
    ensures var (r', more) := r.Deliver(SlotFrame(l, k, l.slots[k]), now);
            && SplitsOk(l, r'.fragments) && r' == r.(fragments := r'.fragments)
            && DeliveriesOk(l.splits, more) && Ordered(more) == []
  {
    var slot := l.slots[k];
    PieceFrame(l, k, slot);
    var info := SlotFrame(l, k, slot).split.value;
    FragmentOk(l, r.fragments, slot.message, slot.index, info.count, now);
    DeliverSplit(r, SlotFrame(l, k, slot), info, now);
  }

  lemma FragmentOk(l: Link, fragments: G.FragmentState, m: u16, index: u32, count: u32, now: nat)
    requires SplitsOk(l, fragments) && m < |l.splits| && l.tx.ChunkSize() > 0
    requires index < |ChunksOf(l, m)| < 0x1_0000_0000 && (count == |ChunksOf(l, m)| || count == 0)
    ensures var (fragments', whole) := fragments.Insert(m, index, count, ChunksOf(l, m)[index], now);
            SplitsOk(l, fragments') && (whole.Some? ==> whole.value == l.splits[m])
  {
    if count > 0 {
      G.ChunksPartition(l.splits[m], l.tx.ChunkSize());
      G.AbsorbIsSafe(fragments.Lookup(m), ChunksOf(l, m), index, now);
    }
  }

  /** A genuine frame, handled by the receiver, keeps its side of the invariant. */
  lemma FrameOk(l: Link, r: Receiver, out: seq<Data>, k: u24, now: nat)
    requires SenderOk(l) && Bounded(l)
    requires r.channels != [] && O.Faithful(r.channels[0], out, WholePackets(l.slots)) && SplitsOk(l, r.fragments)
    requires k < |l.slots| && SlotOk(l, l.slots[k]) && !r.closed
    ensures var (r', more) := r.HandleFrame(SlotFrame(l, k, l.slots[k]), now);
            && r'.channels != [] && O.Faithful(r'.channels[0], out + Ordered(more), WholePackets(l.slots))
            && SplitsOk(l, r'.fragments)
            && DeliveriesOk(l.splits, more)
  {
    var f := SlotFrame(l, k, l.slots[k]);
    assert out + [] == out;
    if !Passes(f.payload) {
    } else if l.slots[k].Whole? {
      OrderOk(l, r, out, k, f.payload);
    } else {
      PieceOk(l, r, k, now);
    }
  }

  lemma ArriveReceiverOk(l: Link, d: Datagram, now: nat)
    requires SenderOk(l) && ReceiverOk(l) && Bounded(l) && d in l.wire
    ensures ReceiverOk(Receive(l, d, now))
  {
    var l' := Receive(l, d, now);
    assert Genuine(l, d);
    if l.rx.Accepts(d) {
      var r := l.rx.Noting(d);
      var f := d.frames[0];
      OneFrameHandled(r, f, now);
      FrameOk(l, r, Ordered(l.delivered), d.number, now);
      OrderedConcat(l.delivered, r.HandleFrame(f, now).1);
    } else {
      assert l.delivered + [] == l.delivered;
    }
  }

  lemma GrowOk(l: Link, l': Link)
    requires ReceiverOk(l) && Extends(l, l') && l'.rx == l.rx && l'.delivered == l.delivered
    ensures ReceiverOk(l')
  {
    FaithfulGrows(l.rx.channels[0], Ordered(l.delivered), l.slots, l'.slots);
    SplitsGrow(l, l');
  }

  lemma SubmitExtends(l: Link, data: Data)
    requires Enabled(l, Submit(data))
    ensures var l' := Next(l, Submit(data));
            Extends(l, l') && l'.rx == l.rx && l'.delivered == l.delivered
  {
  }

  lemma FragmentExtends(l: Link)
    requires Enabled(l, Fragment)
    ensures var l' := Next(l, Fragment);
            Extends(l, l') && l'.rx == l.rx && l'.delivered == l.delivered
  {
  }

  lemma CleanupOk(l: Link, now: nat)
    requires ReceiverOk(l)
    ensures ReceiverOk(l.(rx := l.rx.Cleanup(now)))
  {
  }

  lemma ReceiverStep(l: Link, step: Step)
    requires SenderOk(l) && ReceiverOk(l) && Enabled(l, step) && Bounded(Next(l, step))
    ensures ReceiverOk(Next(l, step))
  {
    match step
    case Arrive(d, now) => ArriveReceiverOk(l, d, now);
    case Submit(data) =>
      SubmitExtends(l, data);
      GrowOk(l, Next(l, step));
    case Fragment =>
      FragmentExtends(l);
      GrowOk(l, Next(l, step));
    case Enqueue(now) => GrowOk(l, QueueIt(l, now));
    case AckArrives(_) => GrowOk(l, Next(l, step));
    case Resend(now, rtt) => GrowOk(l, Next(l, step));
    case FlushAcks =>
    case Cleanup(now) => CleanupOk(l, now);
  }

  // ----- the log of messages -----

  /** The number of messages before the first that needs fragmenting. */
  function Leading(log: seq<Data>, single: nat): (n: nat)
    ensures n <= |log|
    ensures forall i :: 0 <= i < n ==> |log[i]| <= single
    ensures n < |log| ==> |log[n]| > single
  {
    if log == [] || |log[0]| > single then 0 else 1 + Leading(log[1..], single)
  }

  lemma {:induction false} LeadingAppend(log: seq<Data>, single: nat, data: Data)
    ensures Leading(log + [data], single)
         == if Leading(log, single) == |log| && |data| <= single then |log| + 1 else Leading(log, single)
  {
    if log == [] || |log[0]| > single {
    } else {
      assert (log + [data])[1..] == log[1..] + [data];
      LeadingAppend(log[1..], single, data);
    }
  }

  /** Up to the first fragmented message the order indices carry the messages one to one; the
      index after them, once used, carries a fragment. */
  ghost predicate LogOk(l: Link) {
    var n := Leading(l.log, l.tx.SingleSize());
    && (forall i :: 0 <= i < n && i < |l.slots| ==> l.slots[i] == Whole(l.log[i]))
    && (l.splits == [] ==> |l.slots| == n == |l.log| && l.tx.cut.None?)
    && (l.splits != [] ==>
          && n < |l.log| && |l.slots| >= n
          && (|l.slots| > n ==> l.slots[n].Piece?)
          && (|l.slots| == n ==> l.tx.cut.Some?))
    && (forall m :: 0 <= m < |l.splits| ==> l.splits[m] in l.log && |l.splits[m]| > l.tx.SingleSize())
  }

  lemma SubmitWholeLogOk(l: Link, data: Data)
    requires LogOk(l) && l.tx.cut.None? && |data| <= l.tx.SingleSize()
    ensures LogOk(SubmitWhole(l, data))
  {
    LeadingAppend(l.log, l.tx.SingleSize(), data);
    forall m | 0 <= m < |l.splits| ensures l.splits[m] in l.log + [data] {
      assert l.splits[m] in l.log;
    }
  }

  lemma SubmitCutLogOk(l: Link, data: Data)
    requires LogOk(l) && l.tx.cut.None? && l.tx.ChunkSize() > 0 && |data| > l.tx.SingleSize()
    ensures LogOk(SubmitCut(l, data))
  {
    LeadingAppend(l.log, l.tx.SingleSize(), data);
    assert (l.log + [data])[|l.log|] == data;
    forall m | 0 <= m < |l.splits| ensures l.splits[m] in l.log + [data] {
      assert l.splits[m] in l.log;
    }
  }

  lemma FragmentLogOk(l: Link)
    requires LogOk(l) && l.tx.Cutting() && l.splits != []
    ensures LogOk(SendFragment(l))
  {
  }

  lemma SameLogOk(l: Link, l': Link)
    requires LogOk(l) && (l'.log, l'.slots, l'.splits) == (l.log, l.slots, l.splits)
    requires l'.tx.mtu == l.tx.mtu && l'.tx.cut == l.tx.cut
    ensures LogOk(l')
  {
  }

  lemma LogStep(l: Link, step: Step)
    requires LogOk(l) && Enabled(l, step)
    ensures LogOk(Next(l, step))
  {
    match step
    case Submit(data) =>
      if |data| <= l.tx.SingleSize() { SubmitWholeLogOk(l, data); } else { SubmitCutLogOk(l, data); }
    case Fragment => FragmentLogOk(l);
    case _ => SameLogOk(l, Next(l, step));
  }

  // ----- whole runs -----

  ghost predicate Inv(l: Link) {
    SenderOk(l) && AcksOk(l) && ReceiverOk(l) && LogOk(l)
  }

  lemma StartInv(mtu: u16)
    ensures Inv(Start(mtu))
  {
  }

  lemma StepInv(l: Link, step: Step)
    requires Inv(l) && Enabled(l, step) && Bounded(Next(l, step))
    ensures Inv(Next(l, step)) && Bounded(l)
  {
    SenderStep(l, step);
    AcksStep(l, step);
    ReceiverStep(l, step);
    LogStep(l, step);
  }

  lemma {:induction false} RunInv(mtu: u16, states: seq<Link>, steps: seq<Step>)
    requires IsRun(mtu, states, steps) && Bounded(states[|steps|])
    ensures Inv(states[|steps|])
    decreases |steps|
  {
    var n := |steps|;
    if n == 0 {
      StartInv(mtu);
    } else {
      assert Bounded(states[n - 1]);
      RunInv(mtu, states[..n], steps[..n - 1]);
      StepInv(states[n - 1], steps[n - 1]);
    }
  }

  lemma PrefixInv(mtu: u16, states: seq<Link>, steps: seq<Step>, n: nat)
    requires IsRun(mtu, states, steps) && n <= |steps| && Bounded(states[n])
    ensures Inv(states[n])
  {
    RunInv(mtu, states[..n + 1], steps[..n]);
  }

  lemma SlotsGrow(l: Link, step: Step)
    requires Enabled(l, step)
    ensures |l.slots| <= |Next(l, step).slots| && |l.splits| <= |Next(l, step).splits|
  {
  }

  /** Ordering, in every run: what has been delivered through the ordered channel is a prefix
      of the messages submitted, whatever the network does and whatever the window accepts or
      forgets; and it never reaches past the first message that was fragmented, or that is
      empty or begins with the ID of a control packet. */
  lemma DeliveredIsPrefix(mtu: u16, states: seq<Link>, steps: seq<Step>)
    requires IsRun(mtu, states, steps) && Bounded(states[|steps|])
    ensures var l := states[|steps|];
            && Ordered(l.delivered) <= l.log
            && forall i :: 0 <= i < |Ordered(l.delivered)| ==>
                 |l.log[i]| <= l.tx.SingleSize() && Passes(l.log[i])
  {
    RunInv(mtu, states, steps);
    var l := states[|steps|];
    var out, n := Ordered(l.delivered), Leading(l.log, l.tx.SingleSize());
    if n < |out| {
      ReleasedAtIndex(l, n);
    }
    forall i | 0 <= i < |out|
      ensures i < |l.slots| && l.slots[i] == Whole(out[i]) && Passes(out[i])
    {
      ReleasedAtIndex(l, i);
    }
  }

  /** What the channel released at position `i` is the whole message under order index `i`. */
  lemma ReleasedAtIndex(l: Link, i: nat)
    requires ReceiverOk(l) && i < |Ordered(l.delivered)|
    ensures i < |l.slots| && l.slots[i] == Whole(Ordered(l.delivered)[i]) && Passes(Ordered(l.delivered)[i])
  {
    assert O.Packet(i, Ordered(l.delivered)[i]) in WholePackets(l.slots);
  }

  /** While nothing has been fragmented, the application has received exactly a prefix of the
      messages submitted. */
  lemma UnfragmentedInOrder(mtu: u16, states: seq<Link>, steps: seq<Step>)
    requires IsRun(mtu, states, steps) && Bounded(states[|steps|])
    requires states[|steps|].splits == []
    ensures var l := states[|steps|];
            exists n :: 0 <= n <= |l.log| && l.delivered == AllInOrder(l.log[..n])
  {
    RunInv(mtu, states, steps);
    DeliveredIsPrefix(mtu, states, steps);
    var l := states[|steps|];
    var n := |Ordered(l.delivered)|;
    AllOrdered(l.delivered);
    assert Ordered(l.delivered) == l.log[..n];
  }

  lemma {:induction false} AllOrdered(out: seq<Delivery>)
    requires forall i :: 0 <= i < |out| ==> out[i].InOrder?
    ensures out == AllInOrder(Ordered(out))
  {
    if out != [] {
      AllOrdered(out[..|out| - 1]);
      assert out == out[..|out| - 1] + [out[|out| - 1]];
    }
  }

  /** Integrity, in every run: every payload the application receives is a message that was
      submitted, whole; a reassembled one is a message that was fragmented. */
  lemma DeliveredIsSubmitted(mtu: u16, states: seq<Link>, steps: seq<Step>)
    requires IsRun(mtu, states, steps) && Bounded(states[|steps|])
    ensures var l := states[|steps|];
            forall d :: d in l.delivered ==>
              && d.data in l.log && (d.Reassembled? <==> |d.data| > l.tx.SingleSize()) && !d.Direct?
              && (l.tx.mtu >= 60 ==> (d.Reassembled? <==> |d.data| + 60 > l.tx.mtu))
              && (d.Reassembled? ==> d.id < |l.splits| && d.data == l.splits[d.id])
  {
    RunInv(mtu, states, steps);
    DeliveredIsPrefix(mtu, states, steps);
    var l := states[|steps|];
    forall d | d in l.delivered
      ensures d.data in l.log && (d.Reassembled? <==> |d.data| > l.tx.SingleSize()) && !d.Direct?
    {
      if d.InOrder? {
        OrderedMember(l.delivered, d);
        var i :| 0 <= i < |Ordered(l.delivered)| && Ordered(l.delivered)[i] == d.data;
        assert l.log[i] == d.data;
      }
    }
  }

  lemma {:induction false} OrderedMember(out: seq<Delivery>, d: Delivery)
    requires d in out && d.InOrder?
    ensures d.data in Ordered(out)
  {
    if d != out[|out| - 1] {
      assert out == out[..|out| - 1] + [out[|out| - 1]];
      OrderedMember(out[..|out| - 1], d);
    }
  }

  /** No premature forgetting, in every run: a datagram that entered the send queue is still
      there, unchanged, until its number has been accepted by the receiver's window; no loss,
      repetition or reordering of datagrams or acknowledgements removes it earlier. */
  lemma QueuedUntilAccepted(mtu: u16, states: seq<Link>, steps: seq<Step>, k: u24)
    requires IsRun(mtu, states, steps) && Bounded(states[|steps|])
    requires k in states[|steps|].entered
    ensures var l := states[|steps|];
            || k in l.accepted
            || (k in l.tx.queue.packets && Genuine(l, l.tx.queue.packets[k].packet)
                && l.tx.queue.packets[k].packet.number == k)
  {
    RunInv(mtu, states, steps);
  }

  ghost predicate QueueBound(q: S.QueueState<Datagram>) {
    q.maxSize == 2048 && |q.packets| <= 2048
  }

  lemma QueueBoundStep(l: Link, step: Step)
    requires QueueBound(l.tx.queue) && Enabled(l, step)
    ensures QueueBound(Next(l, step).tx.queue)
  {
    match step
    case Enqueue(now) =>
      var q := l.tx.queue;
      S.InsertExactly(q, l.unqueued.value.number, l.unqueued.value, now);
      assert q.Insert(l.unqueued.value.number, l.unqueued.value, now).0.packets.Keys <= q.packets.Keys + {l.unqueued.value.number};
    case AckArrives(packet) =>
      AckHandled(l.tx, Received(packet));
      G.SubsetSize(Next(l, step).tx.queue.packets.Keys, l.tx.queue.packets.Keys);
    case Resend(now, rtt) =>
      S.ExpireKeepsPackets(l.tx.queue, now, (rtt * 3) * 3);
      assert Next(l, step).tx.queue.packets.Keys == l.tx.queue.packets.Keys;
    case _ =>
  }

  /** In every state of every run the send queue holds no more than 2048 datagrams. */
  lemma {:induction false} QueueIsBounded(mtu: u16, states: seq<Link>, steps: seq<Step>, n: nat)
    requires IsRun(mtu, states, steps) && n <= |steps|
    ensures QueueBound(states[n].tx.queue)
  {
    if n > 0 {
      QueueIsBounded(mtu, states, steps, n - 1);
      QueueBoundStep(states[n - 1], steps[n - 1]);
    }
  }
}
