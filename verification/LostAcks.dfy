/**
 Acknowledgements are sent once: in the runs of a link that never make the window forget, no
 two packets acknowledge the same number, so a packet that never arrives leaves its entries in
 the send queue.
 */
module LostAcks {
  import opened Wrappers
  import opened Bytes
  import opened Uint24
  import opened Endpoints
  import opened Links
  import opened Repeats
  import A = AckRanges
  import C = AckCodec
  import S = SendQueues

  /** No number is acknowledged by two packets, or by a packet and the pending list. */
  ghost predicate AckedOnce(l: Link) {
    && (forall p, x: u24 :: p in l.ackWire && Names(p, x) ==> x in l.accepted && !A.Covers(l.rx.acks, x))
    && (forall p, q, x: u24 :: p in l.ackWire && q in l.ackWire && Names(p, x) && Names(q, x) ==> p == q)
  }

  lemma SameAckedOnce(l: Link, l': Link)
    requires AckedOnce(l) && l'.ackWire == l.ackWire && l'.rx.acks == l.rx.acks && l.accepted == l'.accepted
    ensures AckedOnce(l')
  {
  }

  lemma ArriveAckedOnce(l: Link, d: Datagram, now: nat)
    requires AcksOk(l) && AckedOnce(l) && d in l.wire && NoRepeat(l)
    ensures AckedOnce(Receive(l, d, now))
  {
    if l.rx.Accepts(d) {
      HandleFramesKeeps(l.rx.Noting(d), d.frames, now);
      A.InsertedIsCorrect(l.rx.acks, d.number);
    }
  }

  lemma NothingCovered(x: u24)
    ensures !A.Covers([], x)
  {
  }

  lemma FlushAckedOnce(l: Link)
    requires AcksOk(l) && AckedOnce(l)
    ensures AckedOnce(Flush(l))
  {
    if l.rx.acks != [] {
      var packet := C.PacketBytes(C.ID_ACK, l.rx.acks);
      forall x: u24 | Names(packet, x) ensures A.Covers(l.rx.acks, x) {
        FlushNames(l.rx.acks, x);
      }
      forall x: u24 ensures !A.Covers([], x) {
        NothingCovered(x);
      }
    }
  }

  lemma StepAckedOnce(l: Link, step: Step)
    requires AcksOk(l) && AckedOnce(l) && NoRepeat(l) && Enabled(l, step)
    ensures AckedOnce(Next(l, step))
  {
    match step
    case Arrive(d, now) => ArriveAckedOnce(l, d, now);
    case FlushAcks => FlushAckedOnce(l);
    case _ => SameAckedOnce(l, Next(l, step));
  }

  lemma {:induction false} RunAckedOnce(mtu: u16, states: seq<Link>, steps: seq<Step>, n: nat)
    requires IsRun(mtu, states, steps) && n <= |steps| && Bounded(states[n]) && |states[n].slots| <= HALF
    requires forall i :: 0 <= i < n ==> !Forgets(states[i], steps[i])
    ensures AckedOnce(states[n])
  {
    if n > 0 {
      SlotsGrow(states[n - 1], steps[n - 1]);
      RunAckedOnce(mtu, states, steps, n - 1);
      RunWindowOk(mtu, states, steps, n - 1);
      WindowOkNoRepeat(states[n - 1]);
      PrefixInv(mtu, states, steps, n - 1);
      StepAckedOnce(states[n - 1], steps[n - 1]);
    }
  }

  /** In every run of at most 2^23 datagrams that never makes the window forget, each number is
      acknowledged by at most one of the packets sent. */
  lemma NamedByOnePacket(mtu: u16, states: seq<Link>, steps: seq<Step>)
    requires IsRun(mtu, states, steps) && Bounded(states[|steps|]) && |states[|steps|].slots| <= HALF
    requires forall i :: 0 <= i < |steps| ==> !Forgets(states[i], steps[i])
    ensures var l := states[|steps|];
            forall p, q, x: u24 :: p in l.ackWire && q in l.ackWire && Names(p, x) && Names(q, x) ==> p == q
  {
    RunAckedOnce(mtu, states, steps, |steps|);
  }

  // ----- an acknowledgement that never arrives -----

  lemma {:induction false} AcksGrow(mtu: u16, states: seq<Link>, steps: seq<Step>, i: nat, n: nat)
    requires IsRun(mtu, states, steps) && i <= n <= |steps|
    ensures states[i].ackWire <= states[n].ackWire
    decreases n - i
  {
    if i < n {
      AcksGrow(mtu, states, steps, i, n - 1);
    }
  }

  /** Only an acknowledgement of its number removes an entry. */
  lemma EntryStays(l: Link, step: Step, k: u24)
    requires Enabled(l, step) && (k in l.entered ==> k in l.tx.queue.packets)
    requires step.AckArrives? ==> !Names(step.packet, k)
    ensures k in Next(l, step).entered ==> k in Next(l, step).tx.queue.packets
  {
    match step
    case AckArrives(packet) => AckRemoves(l, packet);
    case Resend(now, rtt) => S.ExpireKeepsPackets(l.tx.queue, now, (rtt * 3) * 3);
    case _ =>
  }

  /** An acknowledgement is never repeated: if the packet that names a number never arrives, the
      entry stays in the send queue, to be retransmitted for ever, although the datagram has
      been accepted. */
  lemma {:induction false} LostAckStays(
    mtu: u16, states: seq<Link>, steps: seq<Step>, packet: seq<byte>, k: u24, n: nat)
    requires IsRun(mtu, states, steps) && Bounded(states[|steps|]) && |states[|steps|].slots| <= HALF
    requires forall i :: 0 <= i < |steps| ==> !Forgets(states[i], steps[i])
    requires packet in states[|steps|].ackWire && Names(packet, k)
    requires forall i :: 0 <= i < |steps| ==> steps[i] != AckArrives(packet)
    requires n <= |steps|
    ensures k in states[n].entered ==> k in states[n].tx.queue.packets
    ensures k in states[|steps|].accepted
    decreases n
  {
    RunAckedOnce(mtu, states, steps, |steps|);
    if n > 0 {
      LostAckStays(mtu, states, steps, packet, k, n - 1);
      AcksGrow(mtu, states, steps, n - 1, |steps|);
      EntryStays(states[n - 1], steps[n - 1], k);
    }
  }
}
