/**
 One ordered channel: packets leave in the order of their index, and packets that arrive
 early wait in a bounded queue. `ChannelState` is the value of a channel, `OrderedChannel`
 the object that updates it in place.
 */
module OrderedChannels {
  import opened Wrappers
  import opened Bytes
  import opened Uint24

  const MAX_QUEUE_SIZE: nat := 256

  datatype ChannelState = ChannelState(next: u32, queue: map<u32, Data>, maxQueue: nat) {

    /** Releases queued packets while the next expected one is there. */
    function Drain(): (ChannelState, seq<Data>)
      decreases |queue|
    {
      if next in queue then
        assert |queue - {next}| < |queue| by { SmallerWithout(queue, next); }
        var (s, out) := this.(queue := queue - {next}, next := WrappingAdd(next, 1)).Drain();
        (s, [queue[next]] + out)
      else (this, [])
    }

    function Insert(index: u32, data: Data): (ChannelState, seq<Data>) {
      if index == next then
        var (s, out) := this.(next := WrappingAdd(next, 1)).Drain();
        (s, [data] + out)
      else if index > next && |queue| < maxQueue then (this.(queue := queue[index := data]), [])
      else (this, [])
    }

    /** An index that is neither stale nor already waiting, turned away by a full queue. */
    predicate Loses(index: u32) {
      index > next && |queue| >= maxQueue && index !in queue
    }
  }

  lemma SmallerWithout<T>(m: map<u32, T>, k: u32)
    requires k in m
    ensures |m - {k}| == |m| - 1
  {
    assert (m - {k}).Keys == m.Keys - {k};
    assert |(m - {k}).Keys| == |m.Keys| - 1;
  }

  function New(): ChannelState {
    ChannelState(0, map[], MAX_QUEUE_SIZE)
  }

  datatype Packet = Packet(index: u24, data: Data)

  /** The channel after a run of insertions, and everything it has released. */
  function Run(ps: seq<Packet>): (ChannelState, seq<Data>) {
    if ps == [] then (New(), [])
    else
      var (s, out) := Run(ps[..|ps| - 1]);
      var (s', more) := s.Insert(ps[|ps| - 1].index, ps[|ps| - 1].data);
      (s', out + more)
  }

  // ----- which indices a channel holds -----

  /** The indices a run has inserted. */
  ghost function Indices(ps: seq<Packet>): set<u32> {
    if ps == [] then {} else Indices(ps[..|ps| - 1]) + {ps[|ps| - 1].index}
  }

  /** The indices a run has taken in: those not lost to a full queue. */
  ghost function Taken(ps: seq<Packet>): set<u32> {
    if ps == [] then {}
    else
      var before, index := ps[..|ps| - 1], ps[|ps| - 1].index;
      if Run(before).0.Loses(index) then Taken(before) else Taken(before) + {index}
  }

  /** Everything below the next index has been taken in, and the queue holds what has been
      taken in from there on. */
  ghost predicate Holds(s: ChannelState, taken: set<u32>) {
    && s.next <= MODULUS && |s.queue| <= s.maxQueue
    && (forall k: u32 :: k < s.next ==> k in taken)
    && (forall k :: k in s.queue <==> k in taken && k >= s.next)
    && (forall k :: k in taken ==> k < MODULUS)
  }

  lemma {:induction false} DrainHolds(s: ChannelState, taken: set<u32>)
    requires Holds(s, taken)
    ensures var (s', more) := s.Drain();
            && Holds(s', taken) && s'.next !in taken
            && s'.maxQueue == s.maxQueue && s'.next == s.next + |more|
    decreases |s.queue|
  {
    if s.next in s.queue {
      SmallerWithout(s.queue, s.next);
      DrainHolds(s.(queue := s.queue - {s.next}, next := WrappingAdd(s.next, 1)), taken);
    }
  }

  lemma InsertNextHolds(s: ChannelState, taken: set<u32>, data: Data)
    requires Holds(s, taken) && s.next !in taken && s.next < MODULUS
    ensures var (s', more) := s.Insert(s.next, data);
            && Holds(s', taken + {s.next}) && s'.next !in taken + {s.next}
            && s'.maxQueue == s.maxQueue && s'.next == s.next + |more|
  {
    var s1 := s.(next := WrappingAdd(s.next, 1));
    assert s1.next == s.next + 1;
    DrainHolds(s1, taken + {s.next});
  }

  lemma InsertEarlyHolds(s: ChannelState, taken: set<u32>, index: u24, data: Data)
    requires Holds(s, taken) && s.next !in taken
    requires index > s.next && |s.queue| < s.maxQueue
    ensures Holds(s.(queue := s.queue[index := data]), taken + {index})
  {
    var q := s.queue[index := data];
    assert q.Keys == s.queue.Keys + {index};
    assert |q.Keys| <= |s.queue.Keys| + 1;
  }

  /** One insertion takes its index in unless the full queue loses it, and afterwards the
      next index is one that has not been taken in. */
  lemma InsertHolds(s: ChannelState, taken: set<u32>, index: u24, data: Data)
    requires Holds(s, taken) && s.next !in taken
    ensures var (s', more) := s.Insert(index, data);
            var taken' := if s.Loses(index) then taken else taken + {index};
            && Holds(s', taken') && s'.next !in taken'
            && s'.maxQueue == s.maxQueue && s'.next == s.next + |more|
  {
    if index == s.next {
      InsertNextHolds(s, taken, data);
    } else if index > s.next && |s.queue| < s.maxQueue {
      InsertEarlyHolds(s, taken, index, data);
    } else if !s.Loses(index) {
      assert index in taken;
      assert taken + {index} == taken;
    }
  }

  lemma {:induction false} RunHolds(ps: seq<Packet>)
    ensures Holds(Run(ps).0, Taken(ps)) && Run(ps).0.next !in Taken(ps)
    ensures Run(ps).0.maxQueue == MAX_QUEUE_SIZE && |Run(ps).1| == Run(ps).0.next
  {
    if ps != [] {
      var before, p := ps[..|ps| - 1], ps[|ps| - 1];
      RunHolds(before);
      InsertHolds(Run(before).0, Taken(before), p.index, p.data);
    }
  }

  /** The next index is the least one never inserted and the queue holds the inserted ones
      above it. */
  ghost predicate UpToDate(s: ChannelState, inserted: set<u32>) {
    && (forall k: u32 :: k < s.next ==> k in inserted) && s.next !in inserted
    && (forall k :: k in s.queue <==> k in inserted && k > s.next)
  }

  /** The channel is up to date exactly when every inserted index has been taken in. */
  lemma UpToDateWhenTaken(ps: seq<Packet>)
    ensures UpToDate(Run(ps).0, Indices(ps)) <==> Indices(ps) == Taken(ps)
  {
    RunHolds(ps);
    SameIndices(Run(ps).0, Indices(ps), Taken(ps));
  }

  lemma SameIndices(s: ChannelState, inserted: set<u32>, taken: set<u32>)
    requires Holds(s, taken) && s.next !in taken
    ensures UpToDate(s, inserted) <==> inserted == taken
  {
    if UpToDate(s, inserted) {
      forall k: u32 ensures k in inserted <==> k in taken {
        if k > s.next {
          assert k in s.queue <==> k in taken;
        }
      }
    }
  }

  /** No insertion of the run was lost to a full queue. */
  ghost predicate NothingLost(ps: seq<Packet>) {
    ps == [] ||
    (!Run(ps[..|ps| - 1]).0.Loses(ps[|ps| - 1].index) && NothingLost(ps[..|ps| - 1]))
  }

  /** While the queue never turns a new index away, the channel is up to date. */
  lemma NothingLostUpToDate(ps: seq<Packet>)
    requires NothingLost(ps)
    ensures UpToDate(Run(ps).0, Indices(ps))
  {
    NothingLostIsTaken(ps);
    UpToDateWhenTaken(ps);
  }

  lemma {:induction false} NothingLostIsTaken(ps: seq<Packet>)
    requires NothingLost(ps)
    ensures Taken(ps) == Indices(ps)
  {
    if ps != [] {
      NothingLostIsTaken(ps[..|ps| - 1]);
    }
  }

  lemma {:induction false} QueueGrowsSlowly(ps: seq<Packet>)
    ensures |Run(ps).0.queue| <= |ps| && Run(ps).0.maxQueue == MAX_QUEUE_SIZE
  {
    if ps != [] {
      QueueGrowsSlowly(ps[..|ps| - 1]);
      InsertGrows(Run(ps[..|ps| - 1]).0, ps[|ps| - 1].index, ps[|ps| - 1].data);
    }
  }

  lemma {:induction false} DrainShrinks(s: ChannelState)
    ensures |s.Drain().0.queue| <= |s.queue| && s.Drain().0.maxQueue == s.maxQueue
    decreases |s.queue|
  {
    if s.next in s.queue {
      SmallerWithout(s.queue, s.next);
      DrainShrinks(s.(queue := s.queue - {s.next}, next := WrappingAdd(s.next, 1)));
    }
  }

  lemma InsertGrows(s: ChannelState, index: u32, data: Data)
    ensures |s.Insert(index, data).0.queue| <= |s.queue| + 1 && s.Insert(index, data).0.maxQueue == s.maxQueue
  {
    if index == s.next {
      DrainShrinks(s.(next := WrappingAdd(s.next, 1)));
    } else {
      assert s.queue[index := data].Keys == s.queue.Keys + {index};
      assert |s.queue.Keys + {index}| <= |s.queue.Keys| + 1;
    }
  }

  lemma InsertBounded(s: ChannelState, index: u32, data: Data)
    requires |s.queue| <= s.maxQueue
    ensures |s.Insert(index, data).0.queue| <= s.maxQueue && s.Insert(index, data).0.maxQueue == s.maxQueue
  {
    InsertGrows(s, index, data);
    if index == s.next {
      DrainShrinks(s.(next := WrappingAdd(s.next, 1)));
    }
  }

  /** A run of at most 256 insertions loses nothing. */
  lemma {:induction false} FewLoseNothing(ps: seq<Packet>)
    requires |ps| <= MAX_QUEUE_SIZE
    ensures NothingLost(ps)
  {
    if ps != [] {
      FewLoseNothing(ps[..|ps| - 1]);
      QueueGrowsSlowly(ps[..|ps| - 1]);
    }
  }

  /** Packets 1 to `n`, all of them early as packet 0 is missing. */
  function EarlyPackets(n: nat): seq<Packet>
    requires n < MODULUS
  {
    if n == 0 then [] else EarlyPackets(n - 1) + [Packet(n, [])]
  }

  lemma EarlyInsert(s: ChannelState, k: u32)
    requires k > s.next && |s.queue| < s.maxQueue && k !in s.queue
    ensures s.Insert(k, []) == (s.(queue := s.queue[k := []]), [])
    ensures |s.queue[k := []]| == |s.queue| + 1
  {
    assert s.queue[k := []].Keys == s.queue.Keys + {k};
    assert |s.queue[k := []].Keys| == |s.queue.Keys| + 1;
  }

  lemma RunAppend(ps: seq<Packet>, p: Packet)
    ensures Run(ps + [p]).0 == Run(ps).0.Insert(p.index, p.data).0
  {
    assert (ps + [p])[..|ps|] == ps;
  }

  /** `n` early packets are waiting. */
  ghost predicate Waiting(s: ChannelState, n: nat) {
    s.next == 0 && |s.queue| == n && s.maxQueue == MAX_QUEUE_SIZE && forall k :: k in s.queue ==> k <= n
  }

  lemma {:induction false} EarlyPacketsWait(n: nat)
    requires n <= MAX_QUEUE_SIZE
    ensures Waiting(Run(EarlyPackets(n)).0, n) && |EarlyPackets(n)| == n
  {
    if n > 0 {
      EarlyPacketsWait(n - 1);
      RunAppend(EarlyPackets(n - 1), Packet(n, []));
      EarlyInsert(Run(EarlyPackets(n - 1)).0, n);
    }
  }

  /** The 257th early packet is lost for good: it has been inserted and is not taken in. */
  lemma EarlyPacketLost()
    ensures var ps := EarlyPackets(MAX_QUEUE_SIZE + 1);
            && |ps| == MAX_QUEUE_SIZE + 1 && MAX_QUEUE_SIZE + 1 in Indices(ps)
            && MAX_QUEUE_SIZE + 1 !in Taken(ps) && !UpToDate(Run(ps).0, Indices(ps))
  {
    var n := MAX_QUEUE_SIZE;
    var ps := EarlyPackets(n + 1);
    EarlyPacketsWait(n);
    assert ps[..n] == EarlyPackets(n);
    EarlyTaken(n);
    UpToDateWhenTaken(ps);
  }

  lemma {:induction false} EarlyTaken(n: nat)
    requires n < MODULUS
    ensures |EarlyPackets(n)| == n && forall k :: k in Taken(EarlyPackets(n)) ==> k <= n
  {
    if n > 0 {
      EarlyTaken(n - 1);
      assert EarlyPackets(n)[..n - 1] == EarlyPackets(n - 1);
    }
  }

  // ----- what a channel releases -----

  /** Releases sit at the position of their index and everything comes from what was inserted. */
  ghost predicate Faithful(s: ChannelState, out: seq<Data>, inserted: set<Packet>) {
    && |out| == s.next <= MODULUS
    && (forall k :: 0 <= k < |out| ==> k < MODULUS && Packet(k, out[k]) in inserted)
    && (forall k :: k in s.queue ==> k < MODULUS && Packet(k, s.queue[k]) in inserted)
  }

  lemma {:induction false} DrainFaithful(s: ChannelState, out: seq<Data>, inserted: set<Packet>)
    requires Faithful(s, out, inserted)
    ensures Faithful(s.Drain().0, out + s.Drain().1, inserted)
    decreases |s.queue|
  {
    if s.next in s.queue {
      SmallerWithout(s.queue, s.next);
      var s1 := s.(queue := s.queue - {s.next}, next := WrappingAdd(s.next, 1));
      DrainFaithful(s1, out + [s.queue[s.next]], inserted);
      assert out + s.Drain().1 == (out + [s.queue[s.next]]) + s1.Drain().1;
    } else {
      assert out + [] == out;
    }
  }

  lemma InsertFaithful(s: ChannelState, out: seq<Data>, inserted: set<Packet>, p: Packet)
    requires Faithful(s, out, inserted)
    ensures Faithful(s.Insert(p.index, p.data).0, out + s.Insert(p.index, p.data).1, inserted + {p})
  {
    if p.index == s.next {
      var s1 := s.(next := WrappingAdd(s.next, 1));
      assert Faithful(s1, out + [p.data], inserted + {p});
      DrainFaithful(s1, out + [p.data], inserted + {p});
      assert out + s.Insert(p.index, p.data).1 == (out + [p.data]) + s1.Drain().1;
    } else {
      assert out + [] == out;
    }
  }

  ghost function Packets(ps: seq<Packet>): set<Packet> {
    if ps == [] then {} else Packets(ps[..|ps| - 1]) + {ps[|ps| - 1]}
  }

  lemma {:induction false} RunFaithful(ps: seq<Packet>)
    ensures Faithful(Run(ps).0, Run(ps).1, Packets(ps))
  {
    if ps != [] {
      var before, p := ps[..|ps| - 1], ps[|ps| - 1];
      RunFaithful(before);
      InsertFaithful(Run(before).0, Run(before).1, Packets(before), p);
    }
  }

  /** In every run: as many packets have left as the next index says, the one that left at
      position `i` was inserted with index `i`, and the queue keeps its bound. */
  lemma ReleasesInOrder(ps: seq<Packet>)
    ensures var (s, out) := Run(ps);
            && |out| == s.next
            && (forall i :: 0 <= i < |out| ==> i < MODULUS && Packet(i, out[i]) in Packets(ps))
            && |s.queue| <= MAX_QUEUE_SIZE
  {
    RunFaithful(ps);
    RunHolds(ps);
  }

  /** When every packet carries the message of its index, what has left is a prefix of the
      messages, however the packets arrive, repeat or get lost. */
  lemma ReleasesPrefix(ps: seq<Packet>, messages: seq<Data>)
    requires forall p :: p in Packets(ps) ==> p.index < |messages| && p.data == messages[p.index]
    ensures |Run(ps).1| <= |messages| && Run(ps).1 == messages[..|Run(ps).1|]
  {
    RunFaithful(ps);
    var out := Run(ps).1;
    forall i | 0 <= i < |out| ensures i < |messages| && out[i] == messages[i] {
      assert Packet(i, out[i]) in Packets(ps);
    }
    if out != [] {
      var last := Packet(|out| - 1, out[|out| - 1]);
      assert last in Packets(ps);
    }
  }

  // ----- which data a channel releases -----

  /** The insertion that is next, or early with room in the queue. */
  predicate FindsRoom(s: ChannelState, index: u24) {
    index == s.next || (index > s.next && |s.queue| < 256)
  }

  /** The data last inserted for an index, not counting what comes after its release or meets a
      full queue. */
  function Latest(ps: seq<Packet>, k: u24): Option<Data> {
    if ps == [] then None
    else
      var before, p := ps[..|ps| - 1], ps[|ps| - 1];
      if p.index == k && FindsRoom(Run(before).0, k) then Some(p.data) else Latest(before, k)
  }

  ghost function LatestPackets(ps: seq<Packet>): set<Packet> {
    set p | p in Packets(ps) && Latest(ps, p.index) == Some(p.data)
  }

  ghost function Except(s: set<Packet>, k: u24): set<Packet> {
    set p | p in s && p.index != k
  }

  /** An insertion replaces what was known of its index. */
  lemma InsertReplaces(s: ChannelState, out: seq<Data>, inserted: set<Packet>, p: Packet)
    requires Faithful(s, out, inserted) && s.next !in s.queue
    requires p.index == s.next || (p.index > s.next && |s.queue| < s.maxQueue)
    ensures Faithful(s.Insert(p.index, p.data).0, out + s.Insert(p.index, p.data).1, Except(inserted, p.index) + {p})
  {
    var kept := Except(inserted, p.index) + {p};
    if p.index == s.next {
      var s1 := s.(next := WrappingAdd(s.next, 1));
      assert Faithful(s1, out + [p.data], kept);
      DrainFaithful(s1, out + [p.data], kept);
      assert out + s.Insert(p.index, p.data).1 == (out + [p.data]) + s1.Drain().1;
    } else {
      assert out + [] == out;
    }
  }

  lemma FaithfulAmong(s: ChannelState, out: seq<Data>, a: set<Packet>, b: set<Packet>)
    requires Faithful(s, out, a) && a <= b
    ensures Faithful(s, out, b)
  {
  }

  lemma LatestAppend(before: seq<Packet>, p: Packet, k: u24)
    ensures Latest(before + [p], k) == if p.index == k && FindsRoom(Run(before).0, k) then Some(p.data) else Latest(before, k)
    ensures Packets(before + [p]) == Packets(before) + {p}
  {
    assert (before + [p])[..|before|] == before;
  }

  lemma LatestGrows(before: seq<Packet>, p: Packet)
    ensures var kept := if FindsRoom(Run(before).0, p.index) then Except(LatestPackets(before), p.index) + {p}
                        else LatestPackets(before);
            kept <= LatestPackets(before + [p])
  {
    var room := FindsRoom(Run(before).0, p.index);
    LatestAppend(before, p, p.index);
    forall q | q in LatestPackets(before) && (room ==> q.index != p.index) ensures q in LatestPackets(before + [p]) {
      LatestAppend(before, p, q.index);
    }
  }

  lemma LatestStep(before: seq<Packet>, p: Packet, s: ChannelState, out: seq<Data>)
    requires s == Run(before).0 && Faithful(s, out, LatestPackets(before)) && s.next !in s.queue && s.maxQueue == 256
    ensures var (s', more) := s.Insert(p.index, p.data);
            Faithful(s', out + more, LatestPackets(before + [p]))
  {
    LatestGrows(before, p);
    var (s', more) := s.Insert(p.index, p.data);
    if FindsRoom(s, p.index) {
      InsertReplaces(s, out, LatestPackets(before), p);
      FaithfulAmong(s', out + more, Except(LatestPackets(before), p.index) + {p}, LatestPackets(before + [p]));
    } else {
      assert out + [] == out;
      FaithfulAmong(s, out, LatestPackets(before), LatestPackets(before + [p]));
    }
  }

  lemma {:induction false} RunLatest(ps: seq<Packet>)
    ensures Faithful(Run(ps).0, Run(ps).1, LatestPackets(ps))
  {
    if ps != [] {
      var before := ps[..|ps| - 1];
      RunLatest(before);
      RunHolds(before);
      assert ps == before + [ps[|ps| - 1]];
      LatestStep(before, ps[|ps| - 1], Run(before).0, Run(before).1);
    }
  }

  /** In every run, what has left under an index, and what waits under one, is the data last
      inserted for it: a repetition that finds room replaces what waits, and one that comes after
      the release or meets a full queue is ignored. */
  lemma ReleasesLatest(ps: seq<Packet>)
    ensures var (s, out) := Run(ps);
            && (forall k :: 0 <= k < |out| ==> k < MODULUS && Latest(ps, k) == Some(out[k]))
            && (forall k :: k in s.queue ==> k < MODULUS && Latest(ps, k) == Some(s.queue[k]))
  {
    RunLatest(ps);
    var (s, out) := Run(ps);
    forall k | 0 <= k < |out| ensures k < MODULUS && Latest(ps, k) == Some(out[k]) {
      assert Packet(k, out[k]) in LatestPackets(ps);
    }
    forall k | k in s.queue ensures k < MODULUS && Latest(ps, k) == Some(s.queue[k]) {
      assert Packet(k, s.queue[k]) in LatestPackets(ps);
    }
  }

  // ----- the channel object -----

  class OrderedChannel {
    var nextIndex: u32
    var queue: map<u32, Data>
    const maxQueueSize: nat := MAX_QUEUE_SIZE

    ghost function State(): ChannelState
      reads this
    {
      ChannelState(nextIndex, queue, maxQueueSize)
    }

    constructor ()
      ensures State() == New()
    {
      nextIndex, queue := 0, map[];
    }

    method DrainQueue() returns (ready: seq<Data>)
      modifies this
      ensures (State(), ready) == old(State()).Drain()
    {
      ready := [];
      ghost var (final, out) := State().Drain();
      assert [] + out == out;
      while nextIndex in queue
        invariant State().Drain().0 == final
        invariant ready + State().Drain().1 == out
        decreases |queue|
      {
        SmallerWithout(queue, nextIndex);
        ready := ready + [queue[nextIndex]];
        queue := queue - {nextIndex};
        nextIndex := WrappingAdd(nextIndex, 1);
      }
      assert ready + [] == ready;
    }

    method Insert(index: u32, data: Data) returns (ready: seq<Data>)
      modifies this
      ensures (State(), ready) == old(State()).Insert(index, data)
    {
      ready := [];
      if index == nextIndex {
        nextIndex := WrappingAdd(nextIndex, 1);
        var drained := DrainQueue();
        ready := [data] + drained;
      } else if index > nextIndex {
        if |queue| < maxQueueSize {
          queue := queue[index := data];
        }
      }
    }
  }
}
