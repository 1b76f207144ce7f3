/**
 Fragmentation and reassembly: how a sender cuts a large payload into chunks, and the queue
 in which the receiver collects them. `FragmentState` is the value of the queue,
 `FragmentQueue` the object that updates it in place.
 */
module Fragments {
  import opened Wrappers
  import opened Bytes
  import opened SortedKeys

  // ----- cutting -----

  function Join(chunks: seq<Data>): Data {
    if chunks == [] then [] else chunks[0] + Join(chunks[1..])
  }

  function Min(a: nat, b: nat): nat {
    if a < b then a else b
  }

  /** The chunks of `size` bytes that the data from position `start` on is cut into. */
  function ChunksFrom(data: Data, size: nat, start: nat): seq<Data>
    requires size > 0
    decreases |data| - start
  {
    if start >= |data| then []
    else [data[start..Min(start + size, |data|)]] + ChunksFrom(data, size, start + size)
  }

  function Chunks(data: Data, size: nat): seq<Data>
    requires size > 0
  {
    ChunksFrom(data, size, 0)
  }

  lemma {:induction false} JoinFrom(data: Data, size: nat, start: nat)
    requires size > 0
    ensures Join(ChunksFrom(data, size, start)) == if start >= |data| then [] else data[start..]
    decreases |data| - start
  {
    if start < |data| {
      var end := Min(start + size, |data|);
      JoinFrom(data, size, start + size);
      assert data[start..end] + data[end..] == data[start..];
    }
  }

  /** Chunks are nonempty and all but the last have full size. */
  predicate SizesOk(chunks: seq<Data>, size: nat) {
    && (forall i :: 0 <= i < |chunks| ==> 0 < |chunks[i]| <= size)
    && (forall i :: 0 <= i < |chunks| - 1 ==> |chunks[i]| == size)
  }

  lemma {:induction false} SizesFrom(data: Data, size: nat, start: nat)
    requires size > 0
    ensures SizesOk(ChunksFrom(data, size, start), size)
    decreases |data| - start
  {
    if start < |data| {
      SizesFrom(data, size, start + size);
    }
  }

  /** The cut is a partition into pieces of `size` bytes, the last one possibly shorter but
      not empty: the pieces concatenate to the data. */
  lemma ChunksPartition(data: Data, size: nat)
    requires size > 0
    ensures Join(Chunks(data, size)) == data
    ensures SizesOk(Chunks(data, size), size)
  {
    JoinFrom(data, size, 0);
    SizesFrom(data, size, 0);
  }

  /** The number of chunks that the program announces. */
  function ChunkCount(length: nat, size: nat): nat
    requires size > 0
  {
    (length + size - 1) / size
  }

  lemma MonotoneProduct(a: int, b: int, size: nat)
    requires a <= b
    ensures a * size <= b * size
  {
  }

  lemma QuotientIs(q: nat, r: nat, size: nat)
    requires r < size
    ensures (q * size + r) / size == q
  {
    var p := (q * size + r) / size;
    assert p * size <= q * size + r < p * size + size;
    if p < q {
      MonotoneProduct(p + 1, q, size);
    } else if p > q {
      MonotoneProduct(q + 1, p, size);
    }
  }

  lemma QuotientNext(a: nat, size: nat)
    requires size > 0
    ensures (a + size) / size == a / size + 1
  {
    var q, r := a / size, a % size;
    assert a + size == (q + 1) * size + r;
    QuotientIs(q + 1, r, size);
  }

  lemma {:induction false} CountFrom(data: Data, size: nat, start: nat)
    requires size > 0 && start <= |data|
    ensures |ChunksFrom(data, size, start)| == ChunkCount(|data| - start, size)
    decreases |data| - start
  {
    var length := |data| - start;
    if length == 0 {
      QuotientIs(0, size - 1, size);
    } else if length <= size {
      QuotientIs(1, length - 1, size);
    } else {
      CountFrom(data, size, start + size);
      QuotientNext(length - 1, size);
    }
  }

  /** The announced number is the number of chunks there are. */
  lemma CountIsRight(data: Data, size: nat)
    requires size > 0
    ensures |Chunks(data, size)| == ChunkCount(|data|, size)
  {
    CountFrom(data, size, 0);
  }

  lemma {:induction false} CountAtMost(data: Data, size: nat, start: nat)
    requires size > 0 && start <= |data|
    ensures |ChunksFrom(data, size, start)| <= |data| - start
    decreases |data| - start
  {
    if start + size <= |data| {
      CountAtMost(data, size, start + size);
    }
  }

  // ----- the queue -----

  /** Times are in microseconds. */
  datatype Entry = Entry(totalCount: u32, fragments: map<u32, Data>, firstReceived: nat)

  ghost function Reassembled(fragments: map<u32, Data>): Data
    decreases |fragments.Keys|
  {
    if fragments.Keys == {} then []
    else
      var k := Least(fragments.Keys);
      assert (fragments - {k}).Keys == fragments.Keys - {k};
      fragments[k] + Reassembled(fragments - {k})
  }

  /** What one fragment does to the entry of its split: the entry afterwards, if any, and the
      whole packet if the fragment completes it. */
  ghost function Absorb(entry: Option<Entry>, index: u32, count: u32, data: Data, now: nat)
    : (Option<Entry>, Option<Data>)
  {
    var e := entry.GetOr(Entry(count, map[], now));
    if e.totalCount != count then (None, None)
    else if index in e.fragments then (entry, None)
    else
      var fragments := e.fragments[index := data];
      if |fragments| == count then (None, Some(Reassembled(fragments)))
      else (Some(e.(fragments := fragments)), None)
  }

  datatype FragmentState = FragmentState(splits: map<u16, Entry>, maxConcurrent: nat, timeout: nat) {

    function Lookup(id: u16): Option<Entry> {
      if id in splits then Some(splits[id]) else None
    }

    function Put(id: u16, entry: Option<Entry>): FragmentState {
      this.(splits := if entry.Some? then splits[id := entry.value] else splits - {id})
    }

    /** A fragment of a new split is dropped when this many splits are already open. */
    predicate Full(id: u16) {
      |splits| >= maxConcurrent && id !in splits
    }

    ghost function Insert(id: u16, index: u32, count: u32, data: Data, now: nat): (FragmentState, Option<Data>) {
      if index >= count || Full(id) then (this, None)
      else
        var (entry, out) := Absorb(Lookup(id), index, count, data, now);
        (Put(id, entry), out)
    }

    function Expired(now: nat): set<u16> {
      set id | id in splits && now > splits[id].firstReceived + timeout
    }

    function Cleanup(now: nat): FragmentState {
      this.(splits := splits - Expired(now))
    }
  }

  function New(maxConcurrent: nat): FragmentState {
    FragmentState(map[], maxConcurrent, 8_000_000)
  }

  // ----- one split -----

  function Upto(n: nat): (s: set<u32>)
    requires n < 0x1_0000_0000
    ensures |s| == n
    ensures forall k: u32 :: k in s <==> k < n
  {
    if n == 0 then {} else Upto(n - 1) + {n - 1}
  }

  lemma UptoWhole(k: nat, n: nat)
    requires k <= n < 0x1_0000_0000
    ensures Upto(k) <= Upto(n) && (Upto(k) == Upto(n) <==> k == n)
  {
    if Upto(k) == Upto(n) {
      assert |Upto(k)| == |Upto(n)|;
    }
  }

  lemma SubsetSize<T>(s: set<T>, t: set<T>)
    requires s <= t
    ensures |s| <= |t| && (|s| == |t| <==> s == t)
  {
    assert t == s + (t - s);
    if |s| == |t| { assert t - s == {}; }
  }

  /** The fragments are chunks of one message. */
  ghost predicate AreChunks(fragments: map<u32, Data>, chunks: seq<Data>) {
    forall i :: i in fragments ==> i < |chunks| && fragments[i] == chunks[i]
  }

  /** The fragments held for a split are chunks of one message. */
  ghost predicate Collects(entry: Entry, chunks: seq<Data>) {
    entry.totalCount == |chunks| && AreChunks(entry.fragments, chunks)
  }

  /** The fragments are those with indices from `k` up to, not including, `n`. */
  ghost predicate KeysFrom(fragments: map<u32, Data>, k: u32, n: nat) {
    forall i: u32 :: i in fragments <==> k <= i < n
  }

  lemma ReassembledHead(fragments: map<u32, Data>, k: u32, n: nat)
    requires k < n < 0x1_0000_0000 && KeysFrom(fragments, k, n)
    ensures k in fragments && KeysFrom(fragments - {k}, k + 1, n)
    ensures Reassembled(fragments) == fragments[k] + Reassembled(fragments - {k})
  {
    assert k in fragments.Keys;
    assert Least(fragments.Keys) == k;
  }

  /** The fragments from index `k` on, in ascending order, are the chunks from there on. */
  lemma {:induction false} ReassembledTail(fragments: map<u32, Data>, chunks: seq<Data>, k: u32)
    requires k <= |chunks| < 0x1_0000_0000 && KeysFrom(fragments, k, |chunks|)
    requires forall i :: i in fragments ==> fragments[i] == chunks[i]
    ensures Reassembled(fragments) == Join(chunks[k..])
    decreases |chunks| - k
  {
    if k == |chunks| {
      assert fragments.Keys == {};
    } else {
      ReassembledHead(fragments, k, |chunks|);
      ReassembledTail(fragments - {k}, chunks, k + 1);
      assert chunks[k..][1..] == chunks[k + 1..];
    }
  }

  lemma ReassembledIsJoin(fragments: map<u32, Data>, chunks: seq<Data>)
    requires |chunks| < 0x1_0000_0000 && fragments.Keys == Upto(|chunks|)
    requires AreChunks(fragments, chunks)
    ensures Reassembled(fragments) == Join(chunks)
  {
    assert KeysFrom(fragments, 0, |chunks|) by {
      forall i: u32 ensures i in fragments <==> 0 <= i < |chunks| {
        assert i in fragments.Keys <==> i in Upto(|chunks|);
      }
    }
    ReassembledTail(fragments, chunks, 0);
    assert chunks[0..] == chunks;
  }

  /** The entry holds the chunks with indices `have`, and not yet all. */
  ghost predicate Collecting(entry: Option<Entry>, chunks: seq<Data>, have: set<u32>) {
    && |chunks| < 0x1_0000_0000 && have < Upto(|chunks|)
    && match entry
       case None => have == {}
       case Some(e) => have == e.fragments.Keys != {} && Collects(e, chunks)
  }

  lemma WholeBySize(fragments: map<u32, Data>, n: nat)
    requires n < 0x1_0000_0000 && fragments.Keys <= Upto(n)
    ensures |fragments| == n <==> fragments.Keys == Upto(n)
  {
    assert |fragments| == |fragments.Keys|;
    SubsetSize(fragments.Keys, Upto(n));
  }

  lemma WholeIsJoin(fragments: map<u32, Data>, chunks: seq<Data>)
    requires |chunks| < 0x1_0000_0000 && AreChunks(fragments, chunks)
    ensures |fragments| == |chunks| <==> fragments.Keys == Upto(|chunks|)
    ensures |fragments| == |chunks| ==> Reassembled(fragments) == Join(chunks)
  {
    WholeBySize(fragments, |chunks|);
    if fragments.Keys == Upto(|chunks|) {
      ReassembledIsJoin(fragments, chunks);
    }
  }

  lemma AddedFragment(fragments: map<u32, Data>, chunks: seq<Data>, index: u32)
    requires index < |chunks| < 0x1_0000_0000 && AreChunks(fragments, chunks)
    ensures var more := fragments[index := chunks[index]];
            && AreChunks(more, chunks) && more.Keys == fragments.Keys + {index}
            && (|more| == |chunks| <==> more.Keys == Upto(|chunks|))
            && (|more| == |chunks| ==> Reassembled(more) == Join(chunks))
  {
    var more := fragments[index := chunks[index]];
    assert AreChunks(more, chunks);
    WholeIsJoin(more, chunks);
  }

  /** One chunk of a split that is being collected: the last one missing completes it, any
      other is kept. */
  lemma AbsorbChunk(entry: Option<Entry>, chunks: seq<Data>, have: set<u32>, index: u32, now: nat)
    requires Collecting(entry, chunks, have) && index < |chunks|
    ensures var (entry', out) := Absorb(entry, index, |chunks|, chunks[index], now);
            if have + {index} == Upto(|chunks|)
            then out == Some(Join(chunks)) && entry' == None
            else out == None && Collecting(entry', chunks, have + {index})
  {
    if index in have {
      assert have + {index} == have;
    } else {
      AddedFragment(entry.GetOr(Entry(|chunks|, map[], now)).fragments, chunks, index);
    }
  }

  /** Whatever an entry holds of a message, one more chunk leaves it holding chunks of that
      message, and what it completes to is the message. */
  lemma AbsorbIsSafe(entry: Option<Entry>, chunks: seq<Data>, index: u32, now: nat)
    requires entry.Some? ==> Collects(entry.value, chunks)
    requires index < |chunks| < 0x1_0000_0000
    ensures var (entry', out) := Absorb(entry, index, |chunks|, chunks[index], now);
            && (entry'.Some? ==> Collects(entry'.value, chunks))
            && (out.Some? ==> out.value == Join(chunks))
  {
    AddedFragment(entry.GetOr(Entry(|chunks|, map[], now)).fragments, chunks, index);
  }

  // ----- runs of arrivals -----

  datatype Arrival = Arrival(id: u16, index: u32, count: u32, data: Data, now: nat)

  ghost function After(s: FragmentState, a: Arrival): FragmentState {
    s.Insert(a.id, a.index, a.count, a.data, a.now).0
  }

  ghost function Output(s: FragmentState, a: Arrival): Option<Data> {
    s.Insert(a.id, a.index, a.count, a.data, a.now).1
  }

  /** What happens to a queue: a fragment arrives, or expired splits are removed. */
  datatype Event = Arrive(a: Arrival) | Clean(now: nat)

  ghost function Next(s: FragmentState, e: Event): FragmentState {
    match e
    case Arrive(a) => After(s, a)
    case Clean(now) => s.Cleanup(now)
  }

  ghost function Run(s: FragmentState, events: seq<Event>): FragmentState {
    if events == [] then s else Next(Run(s, events[..|events| - 1]), events[|events| - 1])
  }

  ghost predicate CarriesChunk(a: Arrival, chunks: seq<Data>) {
    a.count == |chunks| && a.index < |chunks| && a.data == chunks[a.index]
  }

  /** Arrivals of split `id` carry chunks of the one message. */
  ghost predicate CarriesChunks(events: seq<Event>, id: u16, chunks: seq<Data>) {
    forall i :: 0 <= i < |events| && events[i].Arrive? && events[i].a.id == id ==> CarriesChunk(events[i].a, chunks)
  }

  /** No arrival finds the queue full. */
  ghost predicate NeverFull(s: FragmentState, events: seq<Event>) {
    events == [] ||
    var before, e := events[..|events| - 1], events[|events| - 1];
    NeverFull(s, before) && (e.Arrive? ==> !Run(s, before).Full(e.a.id))
  }

  /** The indices of split `id` among the arrivals. */
  ghost function Seen(events: seq<Event>, id: u16): set<u32> {
    if events == [] then {}
    else
      var e := events[|events| - 1];
      Seen(events[..|events| - 1], id) + if e.Arrive? && e.a.id == id then {e.a.index} else {}
  }

  /** When the first fragment of split `id` arrived. */
  ghost function Opened(events: seq<Event>, id: u16): Option<nat> {
    if events == [] then None
    else
      var t, e := Opened(events[..|events| - 1], id), events[|events| - 1];
      if t.None? && e.Arrive? && e.a.id == id then Some(e.a.now) else t
  }

  /** Whatever is cleaned up after that is cleaned up before the timeout has passed. */
  ghost predicate InTime(events: seq<Event>, id: u16, timeout: nat) {
    events == [] ||
    var before, e := events[..|events| - 1], events[|events| - 1];
    && InTime(before, id, timeout)
    && (e.Clean? && Opened(before, id).Some? ==> e.now <= Opened(before, id).value + timeout)
  }

  lemma {:induction false} SeenBelow(events: seq<Event>, id: u16, chunks: seq<Data>)
    requires CarriesChunks(events, id, chunks) && |chunks| < 0x1_0000_0000
    ensures Seen(events, id) <= Upto(|chunks|)
  {
    if events != [] {
      SeenBelow(events[..|events| - 1], id, chunks);
    }
  }

  lemma OtherArrival(s: FragmentState, a: Arrival, id: u16)
    requires a.id != id
    ensures After(s, a).Lookup(id) == s.Lookup(id)
  {
  }

  lemma OwnArrival(s: FragmentState, a: Arrival)
    requires a.index < a.count && !s.Full(a.id)
    ensures var (entry, out) := Absorb(s.Lookup(a.id), a.index, a.count, a.data, a.now);
            After(s, a).Lookup(a.id) == entry && Output(s, a) == out
  {
  }

  lemma ArrivalCollects(s: FragmentState, a: Arrival, chunks: seq<Data>, have: set<u32>)
    requires Collecting(s.Lookup(a.id), chunks, have)
    requires a.count == |chunks| && a.index < |chunks| && a.data == chunks[a.index] && !s.Full(a.id)
    ensures have + {a.index} != Upto(|chunks|) ==> Collecting(After(s, a).Lookup(a.id), chunks, have + {a.index})
    ensures Output(s, a) == if have + {a.index} == Upto(|chunks|) then Some(Join(chunks)) else None
    ensures have + {a.index} == Upto(|chunks|) ==> After(s, a).Lookup(a.id) == None
  {
    AbsorbChunk(s.Lookup(a.id), chunks, have, a.index, a.now);
    OwnArrival(s, a);
  }

  /** An entry keeps the time of the fragment that opened it. */
  lemma ArrivalStamps(s: FragmentState, a: Arrival)
    requires a.index < a.count && !s.Full(a.id) && After(s, a).Lookup(a.id).Some?
    ensures After(s, a).Lookup(a.id).value.firstReceived
         == if s.Lookup(a.id).Some? then s.Lookup(a.id).value.firstReceived else a.now
  {
  }

  /** A cleanup removes a split if and only if it was opened longer than the timeout ago, and
      leaves the others as they are. */
  lemma CleanupExactly(s: FragmentState, id: u16, now: nat)
    ensures s.Cleanup(now).Lookup(id)
         == if s.Lookup(id).Some? && now > s.Lookup(id).value.firstReceived + s.timeout then None else s.Lookup(id)
    ensures s.Cleanup(now).maxConcurrent == s.maxConcurrent && s.Cleanup(now).timeout == s.timeout
  {
  }

  lemma {:induction false} RunKeepsLimits(s: FragmentState, events: seq<Event>)
    ensures Run(s, events).maxConcurrent == s.maxConcurrent && Run(s, events).timeout == s.timeout
  {
    if events != [] {
      RunKeepsLimits(s, events[..|events| - 1]);
    }
  }

  /** The entry holds the chunks with indices `have`, and has the time of the first of them. */
  ghost predicate CollectingSince(entry: Option<Entry>, chunks: seq<Data>, have: set<u32>, since: Option<nat>) {
    && Collecting(entry, chunks, have)
    && (entry.Some? <==> since.Some?) && (entry.Some? ==> entry.value.firstReceived == since.value)
  }

  lemma EventCollects(s: FragmentState, e: Event, id: u16, chunks: seq<Data>, have: set<u32>, since: Option<nat>)
    requires CollectingSince(s.Lookup(id), chunks, have, since)
    requires e.Arrive? && e.a.id == id ==>
               CarriesChunk(e.a, chunks) && !s.Full(id) && have + {e.a.index} != Upto(|chunks|)
    requires e.Clean? && since.Some? ==> e.now <= since.value + s.timeout
    ensures var mine := e.Arrive? && e.a.id == id;
            CollectingSince(Next(s, e).Lookup(id), chunks, have + (if mine then {e.a.index} else {}),
                            if since.None? && mine then Some(e.a.now) else since)
  {
    match e
    case Arrive(a) =>
      if a.id == id {
        ArrivalCollects(s, a, chunks, have);
        assert After(s, a).Lookup(id).Some?;
        ArrivalStamps(s, a);
      } else {
        OtherArrival(s, a, id);
        assert have + {} == have;
      }
    case Clean(now) =>
      CleanupExactly(s, id, now);
      assert have + {} == have;
  }

  /** As long as an index of the split is missing, and no cleanup comes later than the timeout
      after the first fragment, the queue holds exactly the chunks that have arrived, in whatever
      order, with whatever repeats and between whatever other splits. */
  lemma {:induction false} CollectsWhatArrived(s: FragmentState, events: seq<Event>, id: u16, chunks: seq<Data>)
    requires id !in s.splits && 0 < |chunks| < 0x1_0000_0000
    requires CarriesChunks(events, id, chunks) && NeverFull(s, events) && InTime(events, id, s.timeout)
    requires Seen(events, id) != Upto(|chunks|)
    ensures CollectingSince(Run(s, events).Lookup(id), chunks, Seen(events, id), Opened(events, id))
  {
    SeenBelow(events, id, chunks);
    if events == [] {
      assert 0 in Upto(|chunks|);
    } else {
      var before, e := events[..|events| - 1], events[|events| - 1];
      SeenBelow(before, id, chunks);
      assert Seen(before, id) != Upto(|chunks|);
      CollectsWhatArrived(s, before, id, chunks);
      RunKeepsLimits(s, before);
      assert Seen(events, id) == Seen(before, id) + (if e.Arrive? && e.a.id == id then {e.a.index} else {});
      EventCollects(Run(s, before), e, id, chunks, Seen(before, id), Opened(before, id));
    }
  }

  /** Reassembly inverts cutting under any arrival order: after any arrivals that leave an index
      of the split missing, with cleanups in time, the next one gives nothing unless it brings
      the last missing index, and then it gives the original data and closes the split. */
  lemma ReassemblyInvertsCutting(s: FragmentState, before: seq<Event>, a: Arrival, data: Data, size: nat)
    requires size > 0 && data != [] && |Chunks(data, size)| < 0x1_0000_0000 && a.id !in s.splits
    requires CarriesChunks(before, a.id, Chunks(data, size)) && CarriesChunk(a, Chunks(data, size))
    requires NeverFull(s, before) && !Run(s, before).Full(a.id) && InTime(before, a.id, s.timeout)
    requires Seen(before, a.id) != Upto(|Chunks(data, size)|)
    ensures var whole := Seen(before, a.id) + {a.index} == Upto(|Chunks(data, size)|);
            && Output(Run(s, before), a) == (if whole then Some(data) else None)
            && (whole ==> a.id !in After(Run(s, before), a).splits)
  {
    var chunks := Chunks(data, size);
    CollectsWhatArrived(s, before, a.id, chunks);
    ArrivalCollects(Run(s, before), a, chunks, Seen(before, a.id));
    ChunksPartition(data, size);
  }

  /** A split that is still incomplete keeps all its chunks through every cleanup up to eight
      seconds after its first fragment, and is gone after any later one. */
  lemma ExpiresExactly(maxConcurrent: nat, events: seq<Event>, id: u16, chunks: seq<Data>, now: nat)
    requires 0 < |chunks| < 0x1_0000_0000 && CarriesChunks(events, id, chunks)
    requires NeverFull(New(maxConcurrent), events) && InTime(events, id, 8_000_000)
    requires Seen(events, id) != Upto(|chunks|) && Opened(events, id).Some?
    ensures var entry := Run(New(maxConcurrent), events + [Clean(now)]).Lookup(id);
            if now <= Opened(events, id).value + 8_000_000 then Collecting(entry, chunks, Seen(events, id)) && entry.Some?
            else entry == None
  {
    var s := New(maxConcurrent);
    CollectsWhatArrived(s, events, id, chunks);
    RunKeepsLimits(s, events);
    assert (events + [Clean(now)])[..|events|] == events;
    CleanupExactly(Run(s, events), id, now);
  }

  /** Never more splits are open than the limit says. */
  lemma {:induction false} SplitsBounded(maxConcurrent: nat, events: seq<Event>)
    ensures |Run(New(maxConcurrent), events).splits| <= maxConcurrent
  {
    if events != [] {
      var before, e := events[..|events| - 1], events[|events| - 1];
      var s := Run(New(maxConcurrent), before);
      SplitsBounded(maxConcurrent, before);
      RunKeepsLimits(New(maxConcurrent), before);
      if e.Arrive? {
        SizeAfter(s, e.a);
      } else {
        SubsetSize(s.Cleanup(e.now).splits.Keys, s.splits.Keys);
      }
    }
  }

  lemma SizeAfter(s: FragmentState, a: Arrival)
    ensures |After(s, a).splits| <= if |s.splits| < s.maxConcurrent then |s.splits| + 1 else |s.splits|
  {
    var s' := After(s, a);
    assert s'.splits.Keys <= s.splits.Keys + {a.id};
    SubsetSize(s'.splits.Keys, s.splits.Keys + {a.id});
    if |s.splits| >= s.maxConcurrent {
      assert s'.splits.Keys <= s.splits.Keys;
      SubsetSize(s'.splits.Keys, s.splits.Keys);
    }
  }

  lemma ReassembledOne(index: u32, data: Data)
    ensures Reassembled(map[index := data]) == data
  {
    var m := map[index := data];
    assert m.Keys == {index};
    assert Least(m.Keys) == index;
    assert (m - {index}).Keys == {};
    assert data + [] == data;
  }

  /** What becomes of one fragment: refused, against the count of its split, a repeat, kept or
      the last one. Other splits are not touched. */
  lemma InsertExactly(s: FragmentState, a: Arrival, id: u16)
    ensures id != a.id ==> After(s, a).Lookup(id) == s.Lookup(id)
    ensures a.index >= a.count || (a.id !in s.splits && |s.splits| >= s.maxConcurrent) ==>
              After(s, a) == s && Output(s, a) == None
    ensures a.index < a.count && a.id in s.splits && s.splits[a.id].totalCount != a.count ==>
              a.id !in After(s, a).splits && Output(s, a) == None
    ensures a.index < a.count && a.id in s.splits && s.splits[a.id].totalCount == a.count
            && a.index in s.splits[a.id].fragments ==>
              After(s, a).Lookup(a.id) == s.Lookup(a.id) && Output(s, a) == None
    ensures a.index < a.count && a.id in s.splits && s.splits[a.id].totalCount == a.count
            && a.index !in s.splits[a.id].fragments && |s.splits[a.id].fragments| + 1 < a.count ==>
              && Output(s, a) == None && a.id in After(s, a).splits
              && After(s, a).splits[a.id].fragments == s.splits[a.id].fragments[a.index := a.data]
              && After(s, a).splits[a.id].totalCount == a.count
              && After(s, a).splits[a.id].firstReceived == s.splits[a.id].firstReceived
    ensures a.index < a.count && a.id in s.splits && s.splits[a.id].totalCount == a.count
            && a.index !in s.splits[a.id].fragments && |s.splits[a.id].fragments| + 1 == a.count ==>
              && a.id !in After(s, a).splits
              && Output(s, a) == Some(Reassembled(s.splits[a.id].fragments[a.index := a.data]))
    ensures a.count == 1 && a.index == 0 && a.id !in s.splits && |s.splits| < s.maxConcurrent ==>
              a.id !in After(s, a).splits && Output(s, a) == Some(a.data)
    ensures a.index < a.count && a.id !in s.splits && |s.splits| < s.maxConcurrent && a.count > 1 ==>
              && Output(s, a) == None && a.id in After(s, a).splits
              && After(s, a).splits[a.id] == Entry(a.count, map[a.index := a.data], a.now)
  {
    if id != a.id {
      OtherArrival(s, a, id);
    }
    if a.index < a.count && !s.Full(a.id) {
      OwnArrival(s, a);
      var held := s.Lookup(a.id).GetOr(Entry(a.count, map[], a.now)).fragments;
      assert a.index !in held ==> |held[a.index := a.data].Keys| == |held.Keys| + 1 by {
        assert held[a.index := a.data].Keys == held.Keys + {a.index};
      }
      if held == map[] {
        ReassembledOne(a.index, a.data);
      }
    }
  }

  // ----- a split does not disturb the others -----

  ghost function Others(events: seq<Event>, id: u16): seq<Event> {
    if events == [] then []
    else
      var e := events[|events| - 1];
      Others(events[..|events| - 1], id) + if e.Arrive? && e.a.id == id then [] else [e]
  }

  /** The two queues agree on every split but `id`, which the second does not hold. */
  ghost predicate AgreeBut(s: FragmentState, t: FragmentState, id: u16) {
    && t.splits == s.splits - {id}
    && t.maxConcurrent == s.maxConcurrent && t.timeout == s.timeout
  }

  lemma PutAgrees(s: FragmentState, t: FragmentState, id: u16, other: u16, entry: Option<Entry>)
    requires AgreeBut(s, t, id)
    ensures AgreeBut(s.Put(id, entry), t, id)
    ensures other != id ==> AgreeBut(s.Put(other, entry), t.Put(other, entry), id)
  {
    if entry.Some? {
      assert s.splits[id := entry.value] - {id} == s.splits - {id};
      if other != id {
        assert s.splits[other := entry.value] - {id} == (s.splits - {id})[other := entry.value];
      }
    } else {
      assert s.splits - {id} - {id} == s.splits - {id};
      assert s.splits - {other} - {id} == s.splits - {id} - {other};
    }
  }

  lemma OwnStepAgrees(s: FragmentState, t: FragmentState, id: u16, a: Arrival)
    requires AgreeBut(s, t, id) && a.id == id
    ensures AgreeBut(After(s, a), t, id)
  {
    PutAgrees(s, t, id, id, Absorb(s.Lookup(id), a.index, a.count, a.data, a.now).0);
  }

  lemma RoomToo(s: FragmentState, t: FragmentState, id: u16, other: u16)
    requires AgreeBut(s, t, id) && other != id && !s.Full(other)
    ensures !t.Full(other) && t.Lookup(other) == s.Lookup(other)
  {
    assert t.splits.Keys == s.splits.Keys - {id};
    SubsetSize(t.splits.Keys, s.splits.Keys);
  }

  lemma OtherStepAgrees(s: FragmentState, t: FragmentState, id: u16, a: Arrival)
    requires AgreeBut(s, t, id) && !s.Full(a.id) && a.id != id
    ensures AgreeBut(After(s, a), After(t, a), id) && Output(s, a) == Output(t, a)
  {
    RoomToo(s, t, id, a.id);
    PutAgrees(s, t, id, a.id, Absorb(s.Lookup(a.id), a.index, a.count, a.data, a.now).0);
  }

  lemma CleanAgrees(s: FragmentState, t: FragmentState, id: u16, now: nat)
    requires AgreeBut(s, t, id)
    ensures AgreeBut(s.Cleanup(now), t.Cleanup(now), id)
  {
    assert t.Expired(now) == s.Expired(now) - {id};
    assert s.splits - s.Expired(now) - {id} == t.splits - t.Expired(now);
  }

  lemma RunAppend(s: FragmentState, events: seq<Event>, e: Event)
    ensures Run(s, events + [e]) == Next(Run(s, events), e)
    ensures NeverFull(s, events + [e]) <==> NeverFull(s, events) && (e.Arrive? ==> !Run(s, events).Full(e.a.id))
  {
    assert (events + [e])[..|events|] == events;
  }

  /** While nothing is dropped for lack of room, the other splits fare as if split `id` had
      never been sent: same state, and same output for every one of their fragments. */
  lemma {:induction false} OthersUndisturbed(s: FragmentState, t: FragmentState, events: seq<Event>, id: u16)
    requires AgreeBut(s, t, id) && NeverFull(s, events)
    ensures AgreeBut(Run(s, events), Run(t, Others(events, id)), id)
    ensures NeverFull(t, Others(events, id))
    ensures events != [] && events[|events| - 1].Arrive? && events[|events| - 1].a.id != id ==>
              var before, a := events[..|events| - 1], events[|events| - 1].a;
              Output(Run(s, before), a) == Output(Run(t, Others(before, id)), a)
  {
    if events != [] {
      var before, e := events[..|events| - 1], events[|events| - 1];
      OthersUndisturbed(s, t, before, id);
      var s1, t1 := Run(s, before), Run(t, Others(before, id));
      if e.Clean? {
        CleanAgrees(s1, t1, id, e.now);
        RunAppend(t, Others(before, id), e);
      } else if e.a.id != id {
        RoomToo(s1, t1, id, e.a.id);
        OtherStepAgrees(s1, t1, id, e.a);
        RunAppend(t, Others(before, id), e);
      } else {
        OwnStepAgrees(s1, t1, id, e.a);
        assert Others(events, id) == Others(before, id);
      }
    }
  }

  // ----- the queue object -----

  method Reassemble(fragments: map<u32, Data>) returns (result: Data)
    ensures result == Reassembled(fragments)
  {
    result := [];
    var left := fragments;
    while left.Keys != {}
      invariant result + Reassembled(left) == Reassembled(fragments)
      decreases |left.Keys|
    {
      var k := LeastOf(left.Keys);
      assert (left - {k}).Keys == left.Keys - {k};
      result := result + left[k];
      left := left - {k};
    }
  }

  /** Opening an entry first makes no difference to where a fragment leaves it. */
  lemma PutAfterPut(s: FragmentState, t: FragmentState, id: u16, entry: Option<Entry>)
    requires t == s || exists e :: t == s.Put(id, Some(e))
    ensures t.Put(id, entry) == s.Put(id, entry)
  {
  }

  class FragmentQueue {
    var splits: map<u16, Entry>
    var maxConcurrent: nat
    var timeout: nat

    ghost function State(): FragmentState
      reads this
    {
      FragmentState(splits, maxConcurrent, timeout)
    }

    constructor (maxConcurrent: nat)
      ensures State() == New(maxConcurrent)
    {
      splits := map[];
      this.maxConcurrent := maxConcurrent;
      timeout := 8_000_000;
    }

    /** Adds a fragment to the entry of a split that is open. */
    method AddToEntry(id: u16, index: u32, count: u32, data: Data, ghost now: nat) returns (r: Option<Data>)
      requires id in splits
      modifies this
      ensures var (entry, out) := Absorb(Some(old(splits)[id]), index, count, data, now);
              State() == old(State()).Put(id, entry) && r == out
    {
      var entry := splits[id];
      ghost var was := splits;
      if entry.totalCount != count {
        splits := splits - {id};
        return None;
      }
      if index in entry.fragments {
        assert was == was[id := entry];
        return None;
      }
      entry := entry.(fragments := entry.fragments[index := data]);
      splits := splits[id := entry];
      if |entry.fragments| == count {
        splits := splits - {id};
        assert splits == was - {id};
        var whole := Reassemble(entry.fragments);
        return Some(whole);
      }
      return None;
    }

    method Insert(id: u16, index: u32, count: u32, data: Data, now: nat) returns (r: Option<Data>)
      modifies this
      ensures (State(), r) == old(State()).Insert(id, index, count, data, now)
    {
      if index >= count {
        return None;
      }
      if |splits| >= maxConcurrent && id !in splits {
        return None;
      }
      ghost var was := State();
      if id !in splits {
        splits := splits[id := Entry(count, map[], now)];
      }
      ghost var withEntry := State();
      r := AddToEntry(id, index, count, data, now);
      PutAfterPut(was, withEntry, id, State().Lookup(id));
    }

    method CleanupExpired(now: nat) returns (count: nat)
      modifies this
      ensures State() == old(State()).Cleanup(now)
      ensures count == |old(State()).Expired(now)|
    {
      ghost var was := splits;
      var expired := set id | id in splits && now > splits[id].firstReceived + timeout;
      assert expired == State().Expired(now);
      count := |expired|;
      var left := expired;
      while left != {}
        invariant left <= expired <= was.Keys
        invariant splits == was - (expired - left)
        invariant maxConcurrent == old(maxConcurrent) && timeout == old(timeout)
        decreases left
      {
        var id :| id in left;
        splits := splits - {id};
        left := left - {id};
      }
      assert splits == was - expired;
    }
  }
}
