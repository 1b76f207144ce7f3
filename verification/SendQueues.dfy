/**
 The queue of unacknowledged packets. `QueueState` is the value of the queue and its
 functions say what each operation makes of it; `SendQueue` performs the operations in
 place. `P` is the type of the packets.
 */
module SendQueues {
  import opened Wrappers
  import opened Bytes
  import opened Uint24
  import opened AckRanges
  import opened AckCodec
  import opened SortedKeys

  /** Times are in microseconds. */
  datatype Entry<P> = Entry(packet: P, lastSend: nat, retries: byte)

  /** `Instant::duration_since`, which saturates at zero. */
  function Since(now: nat, earlier: nat): nat {
    if now > earlier then now - earlier else 0
  }

  /** Addition to the retry count saturates. */
  function NextRetry(retries: byte): byte {
    if retries < 255 then retries + 1 else 255
  }

  datatype QueueState<P> = QueueState(
    packets: map<u32, Entry<P>>, maxSize: nat, sent: nat, acked: nat, resent: nat)
  {
    function Insert(k: u32, packet: P, now: nat): (QueueState<P>, bool) {
      if |packets| >= maxSize then (this, false)
      else (this.(packets := packets[k := Entry(packet, now, 0)], sent := sent + 1), true)
    }

    function Acknowledge(k: u32): QueueState<P> {
      if k in packets then this.(packets := packets - {k}, acked := acked + 1) else this
    }

    ghost function Held(start: u32, end: u32): set<u32> {
      set k | k in packets && SeqInRange(k, start, end)
    }

    ghost function Without(gone: set<u32>): QueueState<P> {
      this.(packets := packets - gone, acked := acked + |gone|)
    }

    ghost function AcknowledgeRange(start: u32, end: u32): QueueState<P> {
      Without(Held(start, end))
    }

    predicate Late(k: u32, now: nat, timeout: nat)
      requires k in packets
    {
      Since(now, packets[k].lastSend) > timeout
    }

    function Stamped(k: u32, now: nat): Entry<P>
      requires k in packets
    {
      Entry(packets[k].packet, now, NextRetry(packets[k].retries))
    }

    /** The late packets among the keys `s`, with their keys, in ascending order. */
    ghost function Report(s: set<u32>, now: nat, timeout: nat): seq<(u32, P)>
      requires s <= packets.Keys
      decreases |s|
    {
      if s == {} then []
      else
        var k := Least(s);
        (if Late(k, now, timeout) then [(k, packets[k].packet)] else []) + Report(s - {k}, now, timeout)
    }

    ghost function LateAmong(s: set<u32>, now: nat, timeout: nat): set<u32>
      requires s <= packets.Keys
    {
      set k | k in s && Late(k, now, timeout)
    }

    /** What an expiry scan returns. */
    ghost function Expired(now: nat, timeout: nat): seq<(u32, P)> {
      Report(packets.Keys, now, timeout)
    }

    /** The queue after an expiry scan. */
    ghost function Expire(now: nat, timeout: nat): QueueState<P> {
      this.(packets := map k | k in packets :: if Late(k, now, timeout) then Stamped(k, now) else packets[k],
            resent := resent + |Expired(now, timeout)|)
    }

    /** What `handle_ack` does: one acknowledgement per range of the list. */
    ghost function HandleAck(ranges: seq<AckRange>): QueueState<P>
      decreases |ranges|
    {
      if ranges == [] then this
      else (match ranges[0]
            case Single(k) => Acknowledge(k)
            case Range(start, end) => AcknowledgeRange(start, end)).HandleAck(ranges[1..])
    }
  }

  function Empty<P>(maxSize: nat): QueueState<P> {
    QueueState(map[], maxSize, 0, 0, 0)
  }

  // ----- insertion -----

  /** A packet is taken if and only if there is room; it is late when the timeout has passed since
      its insertion, and not before. Nothing else changes. */
  lemma InsertExactly<P>(q: QueueState<P>, k: u32, packet: P, now: nat)
    ensures var (q', taken) := q.Insert(k, packet, now);
            && (taken <==> |q.packets| < q.maxSize) && (!taken ==> q' == q)
            && (taken ==>
                  && q'.packets.Keys == q.packets.Keys + {k} && q'.packets[k].packet == packet
                  && (forall t: nat, timeout: nat :: q'.Late(k, t, timeout) <==> t > now + timeout)
                  && (forall j :: j in q.packets && j != k ==> q'.packets[j] == q.packets[j])
                  && q'.sent == q.sent + 1 && q'.acked == q.acked && q'.resent == q.resent
                  && q'.maxSize == q.maxSize)
  {
  }

  // ----- acknowledgement -----

  /** What is left when the numbers covered by `ranges` are acknowledged. */
  ghost predicate Acknowledged<P>(q: QueueState<P>, ranges: seq<AckRange>, q': QueueState<P>) {
    && (forall k :: k in q'.packets <==> k in q.packets && !Covers(ranges, k))
    && (forall k :: k in q'.packets ==> q'.packets[k] == q.packets[k])
    && q'.acked + |q'.packets| == q.acked + |q.packets|
    && q'.maxSize == q.maxSize && q'.sent == q.sent && q'.resent == q.resent
  }

  lemma RemovalSize<P>(m: map<u32, P>, gone: set<u32>)
    requires gone <= m.Keys
    ensures |m - gone| == |m| - |gone|
  {
    assert (m - gone).Keys == m.Keys - gone;
    assert |(m - gone).Keys| == |m.Keys| - |gone|;
  }

  lemma HandleOneRange<P>(q: QueueState<P>, r: AckRange)
    ensures Acknowledged(q, [r], q.HandleAck([r]))
  {
    var gone := set k | k in q.packets && r.Contains(k);
    match r
    case Single(k) =>
      assert gone == if k in q.packets then {k} else {};
    case Range(start, end) =>
      assert gone == q.Held(start, end);
    RemovalSize(q.packets, gone);
    forall k: u32 ensures Covers([r], k) <==> r.Contains(k) {
      CoversHead([r], k);
    }
  }

  /** A whole list of ranges removes exactly the entries it covers. */
  lemma {:induction false} HandleAckRemoves<P>(q: QueueState<P>, ranges: seq<AckRange>)
    ensures Acknowledged(q, ranges, q.HandleAck(ranges))
    decreases |ranges|
  {
    if ranges == [] {
    } else {
      var head, tail := [ranges[0]], ranges[1..];
      assert ranges == head + tail;
      HandleOneRange(q, ranges[0]);
      assert q.HandleAck(ranges) == q.HandleAck(head).HandleAck(tail) by {
        assert head[1..] == [];
      }
      HandleAckRemoves(q.HandleAck(head), tail);
      forall k: u32 ensures Covers(ranges, k) <==> Covers(head, k) || Covers(tail, k) {
        CoversConcat(head, tail, k);
      }
    }
  }

  /** From the receiver's pending list, through codec and receive buffer, to the sender's queue:
      if the packet has at most 2048 bytes, exactly the entries whose number is pending leave,
      the others stay as they are, and the acknowledged total rises by the number that left. A
      longer packet, unless it has more ranges than it can announce, is lost as a whole. */
  lemma AckEndToEnd<P>(q: QueueState<P>, pending: seq<AckRange>)
    requires Canonical(pending)
    ensures |PacketBytes(ID_ACK, pending)| <= 2048 ==>
              && Decoded(Received(PacketBytes(ID_ACK, pending))).Ok?
              && Acknowledged(q, pending, q.HandleAck(Decoded(Received(PacketBytes(ID_ACK, pending))).value.1))
    ensures 2048 < |PacketBytes(ID_ACK, pending)| && |pending| <= 0xFFFF ==>
              Decoded(Received(PacketBytes(ID_ACK, pending))).Err?
  {
    if |PacketBytes(ID_ACK, pending)| <= 2048 {
      ReceivedShort(ID_ACK, pending);
      HandleAckRemoves(q, pending);
    } else if |pending| <= 0xFFFF {
      ReceivedLong(ID_ACK, pending);
    }
  }

  /** `acknowledge` once per number of a set, least first. */
  ghost function AcknowledgeEach<P>(q: QueueState<P>, s: set<u32>): QueueState<P>
    decreases |s|
  {
    if s == {} then q else AcknowledgeEach(q.Acknowledge(Least(s)), s - {Least(s)})
  }

  lemma {:induction false} AcknowledgeEachRemoves<P>(q: QueueState<P>, s: set<u32>)
    requires s <= q.packets.Keys
    ensures AcknowledgeEach(q, s) == q.Without(s)
    decreases |s|
  {
    if s == {} {
      assert q.packets - s == q.packets;
    } else {
      var k := Least(s);
      AcknowledgeEachRemoves(q.Acknowledge(k), s - {k});
      assert q.packets - {k} - (s - {k}) == q.packets - s;
    }
  }

  /** Acknowledging a range, wrapping or not, is acknowledging its held numbers one by one. */
  lemma RangeIsOneByOne<P>(q: QueueState<P>, start: u32, end: u32)
    ensures q.AcknowledgeRange(start, end) == AcknowledgeEach(q, q.Held(start, end))
  {
    AcknowledgeEachRemoves(q, q.Held(start, end));
  }

  // ----- retransmission -----

  /** A scan changes neither keys nor packets; a late entry counts as sent now, one more time,
      the others stay as they are; so nothing is late any more, and one packet more is counted
      as retransmitted for each late entry. */
  lemma ExpireKeepsPackets<P>(q: QueueState<P>, now: nat, timeout: nat)
    ensures var q' := q.Expire(now, timeout);
            && q'.packets.Keys == q.packets.Keys
            && (forall k :: k in q.packets ==>
                  && q'.packets[k].packet == q.packets[k].packet && !q'.Late(k, now, timeout)
                  && q.packets[k].retries <= q'.packets[k].retries
                  && (q'.packets[k] != q.packets[k] ==>
                        q.Late(k, now, timeout) && q'.packets[k].lastSend == now))
            && q'.resent == q.resent + |q.LateAmong(q.packets.Keys, now, timeout)|
  {
    ReportSize(q, q.packets.Keys, now, timeout);
  }

  lemma {:induction false} ReportSize<P>(q: QueueState<P>, s: set<u32>, now: nat, timeout: nat)
    requires s <= q.packets.Keys
    ensures |q.Report(s, now, timeout)| == |q.LateAmong(s, now, timeout)|
    decreases |s|
  {
    if s != {} {
      var k := Least(s);
      ReportSize(q, s - {k}, now, timeout);
      assert q.LateAmong(s, now, timeout)
          == q.LateAmong(s - {k}, now, timeout) + if q.Late(k, now, timeout) then {k} else {};
    }
  }

  ghost predicate AscendingLate<P>(q: QueueState<P>, s: set<u32>, now: nat, timeout: nat, out: seq<(u32, P)>)
    requires s <= q.packets.Keys
  {
    && (forall i :: 0 <= i < |out| ==>
          && out[i].0 in s && out[i].1 == q.packets[out[i].0].packet
          && q.Late(out[i].0, now, timeout))
    && (forall i, j :: 0 <= i < j < |out| ==> out[i].0 < out[j].0)
  }

  lemma {:induction false} ReportIsLate<P>(q: QueueState<P>, s: set<u32>, now: nat, timeout: nat)
    requires s <= q.packets.Keys
    ensures AscendingLate(q, s, now, timeout, q.Report(s, now, timeout))
    decreases |s|
  {
    if s != {} {
      var k := Least(s);
      ReportIsLate(q, s - {k}, now, timeout);
      var rest := q.Report(s - {k}, now, timeout);
      forall i | 0 <= i < |rest| ensures k < rest[i].0 {
        assert rest[i].0 in s - {k};
      }
    }
  }

  lemma {:induction false} LateIsReported<P>(q: QueueState<P>, s: set<u32>, k: u32, now: nat, timeout: nat)
    requires s <= q.packets.Keys && k in s && q.Late(k, now, timeout)
    ensures (k, q.packets[k].packet) in q.Report(s, now, timeout)
    decreases |s|
  {
    if k != Least(s) {
      LateIsReported(q, s - {Least(s)}, k, now, timeout);
    }
  }

  /** A scan reports exactly the late entries, in ascending order. */
  lemma ExpiredIsLate<P>(q: QueueState<P>, now: nat, timeout: nat)
    ensures AscendingLate(q, q.packets.Keys, now, timeout, q.Expired(now, timeout))
    ensures forall k, p :: (k, p) in q.Expired(now, timeout) <==>
              k in q.packets && p == q.packets[k].packet && q.Late(k, now, timeout)
  {
    ReportIsLate(q, q.packets.Keys, now, timeout);
    forall k | k in q.packets && q.Late(k, now, timeout)
      ensures (k, q.packets[k].packet) in q.Expired(now, timeout)
    {
      LateIsReported(q, q.packets.Keys, k, now, timeout);
    }
  }

  /** `check_retransmissions` passes three RTTs and the scan multiplies by three again. */
  lemma RetransmitsAfterNineRtts<P>(q: QueueState<P>, now: nat, rtt: nat, k: u32)
    requires k in q.packets
    ensures (k, q.packets[k].packet) in q.Expired(now, (rtt * 3) * 3)
            <==> now > q.packets[k].lastSend + 9 * rtt
  {
    ExpiredIsLate(q, now, (rtt * 3) * 3);
  }

  // ----- accounting over runs -----

  datatype Op<P> =
    | Put(k: u32, packet: P, now: nat)
    | Ack(k: u32)
    | AckSpan(start: u32, end: u32)
    | Scan(now: nat, timeout: nat)

  ghost function Step<P>(q: QueueState<P>, op: Op<P>): QueueState<P> {
    match op
    case Put(k, p, now) => q.Insert(k, p, now).0
    case Ack(k) => q.Acknowledge(k)
    case AckSpan(start, end) => q.AcknowledgeRange(start, end)
    case Scan(now, timeout) => q.Expire(now, timeout)
  }

  ghost function Run<P>(q: QueueState<P>, ops: seq<Op<P>>): QueueState<P> {
    if ops == [] then q else Step(Run(q, ops[..|ops| - 1]), ops[|ops| - 1])
  }

  /** The step overwrites an entry: it inserts, with room, under a number already held. */
  ghost predicate Overwrites<P>(q: QueueState<P>, op: Op<P>) {
    op.Put? && op.k in q.packets && |q.packets| < q.maxSize
  }

  ghost function Overwritten<P>(q: QueueState<P>, ops: seq<Op<P>>): nat {
    if ops == [] then 0
    else
      var before := ops[..|ops| - 1];
      Overwritten(q, before) + if Overwrites(Run(q, before), ops[|ops| - 1]) then 1 else 0
  }

  lemma PutSize<P>(m: map<u32, P>, k: u32, v: P)
    ensures |m[k := v]| == |m| + if k in m then 0 else 1
  {
  }

  lemma SameSize<P>(m: map<u32, P>, m': map<u32, P>)
    requires m'.Keys == m.Keys
    ensures |m'| == |m|
  {
    assert |m'| == |m'.Keys| == |m.Keys|;
  }

  lemma StepAccounts<P>(q: QueueState<P>, op: Op<P>)
    requires |q.packets| <= q.maxSize
    ensures var q' := Step(q, op);
            && |q'.packets| <= q'.maxSize == q.maxSize
            && q'.sent - q'.acked - |q'.packets|
               == q.sent - q.acked - |q.packets| + if Overwrites(q, op) then 1 else 0
  {
    match op
    case Put(k, p, now) =>
      PutSize(q.packets, k, Entry(p, now, 0));
    case Ack(k) =>
      if k in q.packets { RemovalSize(q.packets, {k}); }
    case AckSpan(start, end) =>
      RemovalSize(q.packets, q.Held(start, end));
    case Scan(now, timeout) =>
      SameSize(q.packets, q.Expire(now, timeout).packets);
  }

  /** Conservation over any run: every packet counted as sent has been acknowledged, is still
      held, or was overwritten by a later insertion under the same number; so the two totals
      differ by the queue length exactly when no insertion hit a number still held. The queue
      never exceeds its capacity. */
  lemma {:induction false} Conservation<P>(maxSize: nat, ops: seq<Op<P>>)
    ensures var q := Run(Empty(maxSize), ops);
            && q.sent == q.acked + |q.packets| + Overwritten(Empty(maxSize), ops)
            && |q.packets| <= q.maxSize == maxSize
            && (q.sent == q.acked + |q.packets| <==> Overwritten(Empty<P>(maxSize), ops) == 0)
  {
    if ops != [] {
      Conservation(maxSize, ops[..|ops| - 1]);
      StepAccounts(Run(Empty(maxSize), ops[..|ops| - 1]), ops[|ops| - 1]);
    }
  }

  // ----- what the entries are, told by the history -----

  /** A packet that has been inserted and not acknowledged since: when it was last inserted or
      reported, and how often it has been reported. */
  datatype Record<P> = Record(packet: P, last: nat, reports: nat)

  /** What one operation makes of the record of a number; `room` is whether the queue had any. */
  function Recorded<P>(h: Option<Record<P>>, room: bool, op: Op<P>, k: u32): Option<Record<P>> {
    match op
    case Put(j, p, now) => if j == k && room then Some(Record(p, now, 0)) else h
    case Ack(j) => if j == k then None else h
    case AckSpan(start, end) =>
      if (start <= k <= end) || (end < start && (start <= k || k <= end)) then None else h
    case Scan(now, timeout) =>
      if h.Some? && now > h.value.last + timeout then Some(Record(h.value.packet, now, h.value.reports + 1)) else h
  }

  /** The record of a number after a run. */
  ghost function History<P>(maxSize: nat, ops: seq<Op<P>>, k: u32): Option<Record<P>> {
    if ops == [] then None
    else
      var before := ops[..|ops| - 1];
      Recorded(History(maxSize, before, k), |Run(Empty(maxSize), before).packets| < maxSize, ops[|ops| - 1], k)
  }

  /** The entry is what the record says; the retry count stops at 255. */
  ghost predicate Matches<P>(q: QueueState<P>, k: u32, h: Option<Record<P>>) {
    && (k in q.packets <==> h.Some?)
    && (h.Some? ==> q.packets[k] == Entry(h.value.packet, h.value.last, if h.value.reports < 255 then h.value.reports else 255))
  }

  lemma StepMatches<P>(q: QueueState<P>, h: Option<Record<P>>, op: Op<P>, k: u32)
    requires Matches(q, k, h)
    ensures Matches(Step(q, op), k, Recorded(h, |q.packets| < q.maxSize, op, k)) && Step(q, op).maxSize == q.maxSize
  {
    match op
    case Put(_, _, _) =>
    case Ack(_) =>
    case AckSpan(start, end) => assert k in q.Held(start, end) <==> k in q.packets && SeqInRange(k, start, end);
    case Scan(now, timeout) =>
      if k in q.packets {
        assert q.Late(k, now, timeout) <==> now > h.value.last + timeout;
      }
  }

  lemma {:induction false} HistoryMatches<P>(maxSize: nat, ops: seq<Op<P>>, k: u32)
    ensures Matches(Run(Empty(maxSize), ops), k, History(maxSize, ops, k))
    ensures Run(Empty<P>(maxSize), ops).maxSize == maxSize
  {
    if ops != [] {
      HistoryMatches(maxSize, ops[..|ops| - 1], k);
      StepMatches(Run(Empty(maxSize), ops[..|ops| - 1]), History(maxSize, ops[..|ops| - 1], k), ops[|ops| - 1], k);
    }
  }

  /** Over any run, a scan reports a packet if and only if it has been inserted and not
      acknowledged since, and more than the timeout has passed since its last insertion or
      report; and it reports the packet last inserted under the number. */
  lemma ReportsByHistory<P>(maxSize: nat, ops: seq<Op<P>>, k: u32, p: P, now: nat, timeout: nat)
    ensures (k, p) in Run(Empty(maxSize), ops).Expired(now, timeout) <==>
              var h := History(maxSize, ops, k);
              h.Some? && p == h.value.packet && now > h.value.last + timeout
  {
    HistoryMatches(maxSize, ops, k);
    ExpiredIsLate(Run(Empty(maxSize), ops), now, timeout);
  }

  // ----- the queue object -----

  /** The map while a scan is under way, with the keys `left` still ahead of it. */
  ghost predicate ScanPending<P>(
    q: QueueState<P>, packets: map<u32, Entry<P>>, left: set<u32>, now: nat, timeout: nat)
  {
    && packets.Keys == q.packets.Keys
    && (forall k :: k in packets ==>
          packets[k] == if k !in left && q.Late(k, now, timeout) then q.Stamped(k, now) else q.packets[k])
  }

  lemma ScanDone<P>(q: QueueState<P>, packets: map<u32, Entry<P>>, now: nat, timeout: nat)
    requires ScanPending(q, packets, {}, now, timeout)
    ensures packets == q.Expire(now, timeout).packets
  {
  }

  lemma ReportHead<P>(q: QueueState<P>, left: set<u32>, now: nat, timeout: nat, expired: seq<(u32, P)>)
    requires left != {} && left <= q.packets.Keys
    ensures var k := Least(left);
            expired + q.Report(left, now, timeout)
            == (if q.Late(k, now, timeout) then expired + [(k, q.packets[k].packet)] else expired)
               + q.Report(left - {k}, now, timeout)
  {
  }

  /** Passing the next key, stamped if it is late. */
  lemma ScanPasses<P>(
    q: QueueState<P>, packets: map<u32, Entry<P>>, left: set<u32>, k: u32, now: nat, timeout: nat)
    requires ScanPending(q, packets, left, now, timeout) && k in left && left <= q.packets.Keys
    ensures packets[k] == q.packets[k]
    ensures ScanPending(q, if q.Late(k, now, timeout) then packets[k := q.Stamped(k, now)] else packets,
                        left - {k}, now, timeout)
  {
  }

  class SendQueue<P> {
    var packets: map<u32, Entry<P>>
    var maxSize: nat
    var totalSent: nat
    var totalAcked: nat
    var totalRetransmitted: nat

    ghost function State(): QueueState<P>
      reads this
    {
      QueueState(packets, maxSize, totalSent, totalAcked, totalRetransmitted)
    }

    constructor (maxSize: nat)
      ensures State() == Empty(maxSize)
    {
      packets := map[];
      this.maxSize := maxSize;
      totalSent, totalAcked, totalRetransmitted := 0, 0, 0;
    }

    method Insert(k: u32, packet: P, now: nat) returns (inserted: bool)
      modifies this
      ensures (State(), inserted) == old(State()).Insert(k, packet, now)
    {
      if |packets| >= maxSize {
        return false;
      }
      packets := packets[k := Entry(packet, now, 0)];
      totalSent := totalSent + 1;
      return true;
    }

    method Acknowledge(k: u32) returns (packet: Option<P>)
      modifies this
      ensures State() == old(State()).Acknowledge(k)
      ensures packet == if k in old(packets) then Some(old(packets)[k].packet) else None
    {
      if k !in packets {
        return None;
      }
      packet := Some(packets[k].packet);
      packets := packets - {k};
      totalAcked := totalAcked + 1;
    }

    /** Removes collected numbers one by one, counting each. */
    method RemoveAll(toRemove: set<u32>) returns (count: nat)
      requires toRemove <= packets.Keys
      modifies this
      ensures State() == old(State()).Without(toRemove)
      ensures count == |toRemove|
    {
      ghost var q := State();
      AcknowledgeEachRemoves(q, toRemove);
      count := 0;
      var left := toRemove;
      while left != {}
        invariant left <= packets.Keys
        invariant AcknowledgeEach(State(), left) == AcknowledgeEach(q, toRemove)
        invariant count + |left| == |toRemove|
        decreases left
      {
        var k := LeastOf(left);
        packets := packets - {k};
        totalAcked := totalAcked + 1;
        count := count + 1;
        left := left - {k};
      }
    }

    method AcknowledgeRange(start: u32, end: u32) returns (count: nat)
      modifies this
      ensures State() == old(State()).AcknowledgeRange(start, end)
      ensures count == |old(State()).Held(start, end)|
    {
      ghost var held := State().Held(start, end);
      if start <= end {
        var toRemove := set k | k in packets && start <= k <= end;
        assert toRemove == held;
        count := RemoveAll(toRemove);
      } else {
        var toRemoveHigh := set k | k in packets && start <= k;
        var toRemoveLow := set k | k in packets && k <= end;
        assert held == toRemoveHigh + toRemoveLow && toRemoveHigh !! toRemoveLow;
        assert |held| == |toRemoveHigh| + |toRemoveLow|;
        ghost var was := packets;
        var high := RemoveAll(toRemoveHigh);
        var low := RemoveAll(toRemoveLow);
        assert packets == was - held;
        count := high + low;
      }
    }

    method GetExpired(now: nat, rtt: nat, multiplier: nat) returns (expired: seq<(u32, P)>)
      modifies this
      ensures State() == old(State()).Expire(now, rtt * multiplier)
      ensures expired == old(State()).Expired(now, rtt * multiplier)
    {
      ghost var q := State();
      var timeout := rtt * multiplier;
      expired := [];
      var left := packets.Keys;
      while left != {}
        invariant left <= packets.Keys
        invariant ScanPending(q, packets, left, now, timeout)
        invariant expired + q.Report(left, now, timeout) == q.Expired(now, timeout)
        invariant State() == q.(packets := packets, resent := q.resent + |expired|)
        decreases left
      {
        var k := LeastOf(left);
        ReportHead(q, left, now, timeout, expired);
        ScanPasses(q, packets, left, k, now, timeout);
        if Since(now, packets[k].lastSend) > timeout {
          packets := packets[k := Entry(packets[k].packet, now, NextRetry(packets[k].retries))];
          totalRetransmitted := totalRetransmitted + 1;
          expired := expired + [(k, packets[k].packet)];
        }
        left := left - {k};
      }
      ScanDone(q, packets, now, timeout);
    }

    /** The body of `handle_ack`. */
    method HandleAck(ranges: seq<AckRange>)
      modifies this
      ensures State() == old(State()).HandleAck(ranges)
      ensures Acknowledged(old(State()), ranges, State())
    {
      HandleAckRemoves(State(), ranges);
      for i := 0 to |ranges|
        invariant State().HandleAck(ranges[i..]) == old(State()).HandleAck(ranges)
      {
        assert ranges[i..][1..] == ranges[i + 1..];
        match ranges[i]
        case Single(k) =>
          var _ := Acknowledge(k);
        case Range(start, end) =>
          var _ := AcknowledgeRange(start, end);
      }
    }
  }
}
