/**
 Acknowledgements are complete: in every run of a link, every number that the receiver has
 accepted is pending or has been sent in an acknowledgement, and one that arrives takes exactly
 its numbers out of the send queue.
 */
module Acknowledgements {
  import opened Wrappers
  import opened Bytes
  import opened Uint24
  import opened Endpoints
  import opened Links
  import A = AckRanges
  import C = AckCodec

  /** A list that covers the number has been flushed. */
  ghost predicate Flushed(l: Link, k: u24) {
    exists rs: seq<A.AckRange> :: A.Canonical(rs) && A.Covers(rs, k) && C.PacketBytes(C.ID_ACK, rs) in l.ackWire
  }

  /** What has been accepted is pending or has been flushed. */
  ghost predicate AllNoted(l: Link) {
    forall k: u24 :: k in l.accepted ==> A.Covers(l.rx.acks, k) || Flushed(l, k)
  }

  /** Whatever has been flushed is a pending list of before. */
  ghost predicate OnlyLists(l: Link) {
    forall p :: p in l.ackWire ==> exists rs: seq<A.AckRange> :: A.Canonical(rs) && p == C.PacketBytes(C.ID_ACK, rs)
  }

  lemma FlushedStays(l: Link, l': Link, k: u24)
    requires Flushed(l, k) && l.ackWire <= l'.ackWire
    ensures Flushed(l', k)
  {
    var rs :| A.Canonical(rs) && A.Covers(rs, k) && C.PacketBytes(C.ID_ACK, rs) in l.ackWire;
    assert C.PacketBytes(C.ID_ACK, rs) in l'.ackWire;
  }

  lemma ArriveAllNoted(l: Link, d: Datagram, now: nat)
    requires AcksOk(l) && AllNoted(l)
    ensures AllNoted(Receive(l, d, now))
  {
    var l' := Receive(l, d, now);
    forall k: u24 | k in l'.accepted ensures A.Covers(l'.rx.acks, k) || Flushed(l', k) {
      if !l.rx.closed && !l.rx.crashed {
        DatagramNoted(l.rx, d, now, k);
      }
      if k in l.accepted && Flushed(l, k) {
        FlushedStays(l, l', k);
      }
    }
  }

  lemma FlushAllNoted(l: Link)
    requires AcksOk(l) && AllNoted(l)
    ensures AllNoted(Flush(l))
  {
    var l' := Flush(l);
    forall k: u24 | k in l'.accepted ensures Flushed(l', k) {
      if A.Covers(l.rx.acks, k) {
        assert C.PacketBytes(C.ID_ACK, l.rx.acks) in l'.ackWire;
      } else {
        FlushedStays(l, l', k);
      }
    }
  }

  lemma StepAllNoted(l: Link, step: Step)
    requires AcksOk(l) && AllNoted(l) && OnlyLists(l) && Enabled(l, step)
    ensures AllNoted(Next(l, step)) && OnlyLists(Next(l, step))
  {
    match step
    case Arrive(d, now) => ArriveAllNoted(l, d, now);
    case FlushAcks => FlushAllNoted(l);
    case _ =>
      forall k: u24 | k in l.accepted && Flushed(l, k) ensures Flushed(Next(l, step), k) {
        FlushedStays(l, Next(l, step), k);
      }
  }

  lemma RunAcksOk(mtu: u16, states: seq<Link>, steps: seq<Step>, n: nat)
    requires IsRun(mtu, states, steps) && n <= |steps| && Bounded(states[n])
    ensures AcksOk(states[n])
  {
    PrefixInv(mtu, states, steps, n);
  }

  /** In every state of every run, each number that the window has accepted is pending or covered
      by a list that has been sent as an acknowledgement. */
  lemma {:induction false} AcceptedIsNoted(mtu: u16, states: seq<Link>, steps: seq<Step>, n: nat)
    requires IsRun(mtu, states, steps) && n <= |steps| && Bounded(states[n])
    ensures AllNoted(states[n]) && OnlyLists(states[n])
  {
    if n > 0 {
      SlotsGrow(states[n - 1], steps[n - 1]);
      AcceptedIsNoted(mtu, states, steps, n - 1);
      RunAcksOk(mtu, states, steps, n - 1);
      StepAllNoted(states[n - 1], steps[n - 1]);
    }
  }

  /** Every acknowledgement sent fits the receive buffer. */
  predicate AllShort(packets: set<seq<byte>>) {
    forall p :: p in packets ==> |p| <= 2048
  }

  lemma FlushedNamed(l: Link, k: u24)
    requires AllShort(l.ackWire) && Flushed(l, k)
    ensures exists p :: p in l.ackWire && Names(p, k)
  {
    var rs :| A.Canonical(rs) && A.Covers(rs, k) && C.PacketBytes(C.ID_ACK, rs) in l.ackWire;
    FlushNames(rs, k);
    assert Names(C.PacketBytes(C.ID_ACK, rs), k);
  }

  /** While no acknowledgement is longer than the 2048 bytes of the receive buffer, the numbers
      accepted are exactly those that are pending or that an acknowledgement sent names. */
  lemma AcceptedIsNamed(mtu: u16, states: seq<Link>, steps: seq<Step>, k: u24)
    requires IsRun(mtu, states, steps) && Bounded(states[|steps|]) && AllShort(states[|steps|].ackWire)
    ensures var l := states[|steps|];
            k in l.accepted <==> A.Covers(l.rx.acks, k) || exists p :: p in l.ackWire && Names(p, k)
  {
    var l := states[|steps|];
    RunInv(mtu, states, steps);
    AcceptedIsNoted(mtu, states, steps, |steps|);
    if p :| p in l.ackWire && Names(p, k) {
      assert AcksOnly(p, l.accepted);
    }
    if k in l.accepted && !A.Covers(l.rx.acks, k) {
      FlushedNamed(l, k);
    }
  }

  /** The packet of a list takes exactly the numbers of the list out of the send queue, if it fits
      the receive buffer; it never takes another, and leaves the other entries as they are. */
  lemma ListArrives(l: Link, rs: seq<A.AckRange>)
    requires A.Canonical(rs)
    ensures var packet := C.PacketBytes(C.ID_ACK, rs);
            var l' := AckReceived(l, packet);
            && (|packet| <= 2048 ==>
                  forall k: u24 :: k in l'.tx.queue.packets <==> k in l.tx.queue.packets && !A.Covers(rs, k))
            && (forall k: u24 :: k in l.tx.queue.packets && !A.Covers(rs, k) ==> k in l'.tx.queue.packets)
            && (2048 < |packet| && |rs| <= 0xFFFF ==> l' == l)
  {
    var packet := C.PacketBytes(C.ID_ACK, rs);
    AckRemoves(l, packet);
    forall k: u24 ensures Names(packet, k) ==> A.Covers(rs, k)
      ensures |packet| <= 2048 ==> (Names(packet, k) <==> A.Covers(rs, k))
    {
      FlushNames(rs, k);
    }
    if 2048 < |packet| && |rs| <= 0xFFFF {
      C.ReceivedLong(C.ID_ACK, rs);
      AckHandled(l.tx, Received(packet));
    }
  }

  /** A list encoded as a negative acknowledgement takes nothing out. */
  lemma NackIgnored(l: Link, rs: seq<A.AckRange>)
    requires A.Canonical(rs)
    ensures AckReceived(l, C.PacketBytes(C.ID_NACK, rs)) == l
  {
    C.ReceivedDecoded(C.ID_NACK, rs);
    AckHandled(l.tx, Received(C.PacketBytes(C.ID_NACK, rs)));
  }

  /** At every point of a run whose acknowledgements fit the receive buffer, a flush and one
      acknowledgement are enough to take an accepted number out of the send queue. */
  lemma AcceptedCanLeave(mtu: u16, states: seq<Link>, steps: seq<Step>, k: u24) returns (packet: seq<byte>)
    requires IsRun(mtu, states, steps) && Bounded(states[|steps|]) && k in states[|steps|].accepted
    requires AllShort(Flush(states[|steps|]).ackWire)
    ensures var l := Flush(states[|steps|]);
            Enabled(l, AckArrives(packet)) && k !in Next(l, AckArrives(packet)).tx.queue.packets
  {
    var l := states[|steps|];
    RunAcksOk(mtu, states, steps, |steps|);
    AcceptedIsNoted(mtu, states, steps, |steps|);
    StepAllNoted(l, FlushAcks);
    var rs :| A.Canonical(rs) && A.Covers(rs, k) && C.PacketBytes(C.ID_ACK, rs) in Flush(l).ackWire;
    packet := C.PacketBytes(C.ID_ACK, rs);
    ListArrives(Flush(l), rs);
  }

  /** Up to 292 pending ranges fit the receive buffer, whatever they are. */
  lemma ShortList(rs: seq<A.AckRange>)
    requires |rs| <= 292
    ensures |C.PacketBytes(C.ID_ACK, rs)| <= 2048
  {
    RecordsAtMost(rs);
  }

  lemma {:induction false} RecordsAtMost(rs: seq<A.AckRange>)
    ensures |C.RecordsBytes(rs)| <= 7 * |rs|
  {
    if rs != [] {
      RecordsAtMost(rs[1..]);
    }
  }
}
