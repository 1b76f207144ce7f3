/**
 How much of what was submitted has been delivered, in the runs of a link: while no packet is
 lost to a full channel queue, exactly the messages before the first one whose datagram has not
 been accepted.
 */
module Completeness {
  import opened Wrappers
  import opened Bytes
  import opened Uint24
  import opened Endpoints
  import opened Links
  import G = Fragments
  import O = OrderedChannels

  /** The order index carries a message for the channel, and its datagram has been accepted. */
  ghost predicate Arrived(l: Link, k: nat) {
    k < MODULUS && k in l.accepted && k < |l.slots| && Orderly(l.slots[k])
  }

  ghost function ArrivedIndices(l: Link): (s: set<u32>)
    ensures forall k: u32 :: k in s <==> Arrived(l, k)
  {
    set k: u32 | k in l.accepted && k < |l.slots| && Orderly(l.slots[k])
  }

  /** The step brings a message that the full queue of the channel turns away. */
  ghost predicate Loses(l: Link, step: Step) {
    && step.Arrive? && l.rx.Accepts(step.d) && l.rx.channels != []
    && step.d.number < |l.slots| && Orderly(l.slots[step.d.number])
    && l.rx.channels[0].Loses(step.d.number)
  }

  /** The channel has taken in what has arrived. */
  ghost predicate ChannelOk(l: Link) {
    && (forall k :: k in l.accepted ==> k < |l.slots|)
    && l.rx.channels != [] && l.rx.channels[0].maxQueue == O.MAX_QUEUE_SIZE
    && O.Holds(l.rx.channels[0], ArrivedIndices(l)) && !Arrived(l, l.rx.channels[0].next)
  }

  lemma SameArrived(l: Link, l': Link)
    requires ChannelOk(l) && l.slots <= l'.slots && l'.accepted == l.accepted && l'.rx.channels == l.rx.channels
    ensures ChannelOk(l')
  {
    forall k: u32 ensures Arrived(l', k) <==> Arrived(l, k) {
    }
    assert ArrivedIndices(l') == ArrivedIndices(l);
  }

  /** A frame that is not for the channel leaves it alone. */
  lemma NotOrderly(l: Link, r: Receiver, k: u24, now: nat)
    requires k < |l.slots| && SlotOk(l, l.slots[k]) && !Orderly(l.slots[k]) && !r.closed
    ensures r.HandleFrame(SlotFrame(l, k, l.slots[k]), now).0.channels == r.channels
  {
  }

  lemma OrderlyFrame(l: Link, r: Receiver, k: u24, now: nat)
    requires k < |l.slots| && SlotOk(l, l.slots[k]) && Orderly(l.slots[k]) && !r.closed && r.channels != []
    ensures r.HandleFrame(SlotFrame(l, k, l.slots[k]), now).0.channels
         == r.channels[0 := r.channels[0].Insert(k, l.slots[k].data).0]
  {
  }

  lemma AcceptedChannel(l: Link, d: Datagram, now: nat)
    requires SenderOk(l) && ChannelOk(l) && d in l.wire && l.rx.Accepts(d) && !Loses(l, Arrive(d, now))
    ensures ChannelOk(Receive(l, d, now))
  {
    var l', r, k := Receive(l, d, now), l.rx.Noting(d), d.number;
    assert Genuine(l, d);
    OneFrameDatagram(l.rx, d, now);
    if Orderly(l.slots[k]) {
      OrderlyFrame(l, r, k, now);
      O.InsertHolds(l.rx.channels[0], ArrivedIndices(l), k, l.slots[k].data);
      assert ArrivedIndices(l') == ArrivedIndices(l) + {k};
    } else {
      NotOrderly(l, r, k, now);
      assert ArrivedIndices(l') == ArrivedIndices(l);
    }
  }

  lemma StepChannelOk(l: Link, step: Step)
    requires SenderOk(l) && ChannelOk(l) && Enabled(l, step) && !Loses(l, step)
    ensures ChannelOk(Next(l, step))
  {
    match step
    case Arrive(d, now) =>
      if l.rx.Accepts(d) {
        AcceptedChannel(l, d, now);
      } else {
        SameArrived(l, Receive(l, d, now));
      }
    case _ => SameArrived(l, Next(l, step));
  }

  lemma StartChannelOk(mtu: u16)
    ensures ChannelOk(Start(mtu))
  {
    assert ArrivedIndices(Start(mtu)) == {};
  }

  lemma {:induction false} RunChannelOk(mtu: u16, states: seq<Link>, steps: seq<Step>, n: nat)
    requires IsRun(mtu, states, steps) && n <= |steps| && Bounded(states[n])
    requires forall i :: 0 <= i < n ==> !Loses(states[i], steps[i])
    ensures ChannelOk(states[n])
  {
    if n == 0 {
      StartChannelOk(mtu);
    } else {
      SlotsGrow(states[n - 1], steps[n - 1]);
      PrefixInv(mtu, states, steps, n - 1);
      RunChannelOk(mtu, states, steps, n - 1);
      StepChannelOk(states[n - 1], steps[n - 1]);
    }
  }

  /** In every run in which nothing is lost to a full channel queue, what has been delivered
      through the channel is exactly the longest prefix of the messages submitted all of whose
      datagrams have been accepted, as far as they are for the channel: neither fragmented, nor
      empty, nor taken for a control packet. */
  lemma DeliveredExactly(mtu: u16, states: seq<Link>, steps: seq<Step>)
    requires IsRun(mtu, states, steps) && Bounded(states[|steps|])
    requires forall i :: 0 <= i < |steps| ==> !Loses(states[i], steps[i])
    ensures var l := states[|steps|];
            var n := |Ordered(l.delivered)|;
            && Ordered(l.delivered) <= l.log
            && (forall k :: 0 <= k < n ==> Arrived(l, k)) && !Arrived(l, n)
  {
    RunInv(mtu, states, steps);
    DeliveredIsPrefix(mtu, states, steps);
    RunChannelOk(mtu, states, steps, |steps|);
  }

  lemma WholeLog(l: Link)
    requires LogOk(l) && l.splits == [] && forall data :: data in l.log ==> Passes(data)
    ensures |l.slots| == |l.log| && forall k :: 0 <= k < |l.log| ==> Orderly(l.slots[k])
  {
    forall k | 0 <= k < |l.log| ensures Orderly(l.slots[k]) {
      assert l.slots[k] == Whole(l.log[k]) && l.log[k] in l.log;
    }
  }

  /** If moreover nothing was fragmented and every payload passes, all messages have been
      delivered, in order and once each, if and only if all their datagrams have been accepted. */
  lemma CompleteExactly(mtu: u16, states: seq<Link>, steps: seq<Step>)
    requires IsRun(mtu, states, steps) && Bounded(states[|steps|])
    requires forall i :: 0 <= i < |steps| ==> !Loses(states[i], steps[i])
    requires states[|steps|].splits == [] && forall data :: data in states[|steps|].log ==> Passes(data)
    ensures var l := states[|steps|];
            l.delivered == AllInOrder(l.log) <==> forall k :: 0 <= k < |l.log| ==> k < MODULUS && k in l.accepted
  {
    var l := states[|steps|];
    RunInv(mtu, states, steps);
    WholeLog(l);
    DeliveredExactly(mtu, states, steps);
    UnfragmentedInOrder(mtu, states, steps);
    var n :| 0 <= n <= |l.log| && l.delivered == AllInOrder(l.log[..n]);
    OrderedAll(l.log[..n]);
    if n < |l.log| {
      assert !Arrived(l, n);
      assert |AllInOrder(l.log)| != |l.delivered|;
    } else {
      assert l.log[..n] == l.log;
      forall k | 0 <= k < |l.log| ensures k < MODULUS && k in l.accepted {
        assert Arrived(l, k);
      }
    }
  }

  // ----- runs too short to lose anything -----

  /** Fewer packets are in front of an early one than the queue has places. */
  lemma RoomInShortRun(l: Link, index: u24)
    requires ChannelOk(l) && |l.slots| <= O.MAX_QUEUE_SIZE + 1 && index < |l.slots|
    ensures !l.rx.channels[0].Loses(index)
  {
    var c := l.rx.channels[0];
    if index > c.next && index !in c.queue {
      var others := G.Upto(|l.slots|) - {0} - {index};
      forall k | k in c.queue ensures k in others {
        assert Arrived(l, k);
      }
      G.SubsetSize(c.queue.Keys, others);
      assert |others| == |l.slots| - 2;
      assert |c.queue| == |c.queue.Keys|;
    }
  }

  lemma {:induction false} ShortRunsLoseNothing(mtu: u16, states: seq<Link>, steps: seq<Step>, n: nat)
    requires IsRun(mtu, states, steps) && n <= |steps| && Bounded(states[n])
    requires |states[n].slots| <= O.MAX_QUEUE_SIZE + 1
    ensures ChannelOk(states[n]) && forall i :: 0 <= i < n ==> !Loses(states[i], steps[i])
  {
    if n == 0 {
      StartChannelOk(mtu);
    } else {
      SlotsGrow(states[n - 1], steps[n - 1]);
      ShortRunsLoseNothing(mtu, states, steps, n - 1);
      if steps[n - 1].Arrive? && steps[n - 1].d.number < |states[n - 1].slots| {
        RoomInShortRun(states[n - 1], steps[n - 1].d.number);
      }
      PrefixInv(mtu, states, steps, n - 1);
      StepChannelOk(states[n - 1], steps[n - 1]);
    }
  }

  /** So with up to 257 order indices this holds in every run, whatever the network does. */
  lemma ShortRunsExact(mtu: u16, states: seq<Link>, steps: seq<Step>)
    requires IsRun(mtu, states, steps) && Bounded(states[|steps|])
    requires |states[|steps|].slots| <= O.MAX_QUEUE_SIZE + 1
    ensures var l := states[|steps|];
            var n := |Ordered(l.delivered)|;
            && Ordered(l.delivered) <= l.log
            && (forall k :: 0 <= k < n ==> Arrived(l, k)) && !Arrived(l, n)
  {
    ShortRunsLoseNothing(mtu, states, steps, |steps|);
    DeliveredExactly(mtu, states, steps);
  }
}
