/**
 How often a datagram is accepted and a fragmented message handed over, in the runs of a
 link: once, if and only if no jump of the receive window makes it forget.
 */
module Repeats {
  import opened Wrappers
  import opened Bytes
  import opened Uint24
  import opened Endpoints
  import opened Links
  import F = Frames
  import G = Fragments
  import O = OrderedChannels
  import W = RecvWindows

  // ----- datagrams -----

  predicate Open(r: Receiver) {
    !r.closed && !r.crashed
  }

  /** What the specification of the window holds in its place, if nothing has been forgotten. */
  function MemoryOf(l: Link): W.Memory {
    W.Memory(2048, l.rx.window.base, l.accepted, l.accepted)
  }

  /** While the receiver is open, the window remembers every number it has accepted, all of them
      sent. */
  ghost predicate WindowOk(l: Link) {
    && (Open(l.rx) ==>
          && |l.rx.window.bits| == 2048 && l.rx.window.base < HALF
          && W.Remembers(l.rx.window, l.rx.window.base, l.accepted))
    && forall k :: k in l.accepted ==> OnWire(l, k)
  }

  ghost predicate OnWire(l: Link, k: u24) {
    exists d :: d in l.wire && d.number == k
  }

  /** The step is an accepted arrival beyond the window, at most half a window ahead of some
      number that has been accepted before, and it leaves the receiver open. */
  ghost predicate Forgets(l: Link, step: Step) {
    && step.Arrive? && l.rx.Accepts(step.d) && MemoryOf(l).Forgets(W.Arrive(step.d.number))
    && Open(Receive(l, step.d, step.now).rx)
  }

  /** No datagram that the network may still deliver would be accepted a second time. */
  ghost predicate NoRepeat(l: Link) {
    forall d :: d in l.wire && l.rx.Accepts(d) ==> d.number !in l.accepted
  }

  /** All numbers in use lie within half the number space. */
  lemma SentIsNear(l: Link, d: Datagram)
    requires SenderOk(l) && WindowOk(l) && Open(l.rx) && |l.slots| <= HALF && d in l.wire
    ensures d.number < HALF && d.number % MODULUS == d.number && MemoryOf(l).Near(W.Arrive(d.number))
  {
    assert Genuine(l, d);
  }

  lemma WindowOkNoRepeat(l: Link)
    requires SenderOk(l) && WindowOk(l) && |l.slots| <= HALF
    ensures NoRepeat(l)
  {
    forall d | d in l.wire && l.rx.Accepts(d) ensures d.number !in l.accepted {
      SentIsNear(l, d);
      W.EventRemembers(l.rx.window, MemoryOf(l), W.Arrive(d.number));
    }
  }

  lemma SmallBase(mem: W.Memory, n: u24)
    requires mem.b < HALF && n < HALF && mem.size == 2048
    ensures mem.After(W.Arrive(n)).b < HALF
  {
  }

  lemma AcceptedOrNot(mem: W.Memory, n: u24)
    ensures mem.Accepting(W.Arrive(n)) == if mem.Decide(n) == Some(true) then mem.acc + {n} else mem.acc
  {
    if n in mem.acc {
      assert mem.acc + {n} == mem.acc;
    }
  }

  lemma SameBase(w: W.WindowState, b: nat, acc: set<nat>)
    requires W.Remembers(w, b, acc) && b < HALF
    ensures w.base == b
  {
    assert b % MODULUS == b;
  }

  /** The base the specification has after an arrival is that of the window. */
  lemma BaseAfter(w: W.WindowState, mem: W.Memory, n: u24)
    requires W.Remembers(w, mem.b, mem.acc) && mem.size == |w.bits| == 2048 && mem.b < HALF && n < HALF
    requires mem.Near(W.Arrive(n)) && !mem.Forgets(W.Arrive(n))
    ensures var w' := w.Mark(n).0;
            && |w'.bits| == 2048 && w'.base < HALF && w.Mark(n).1 == mem.Decide(n)
            && W.Remembers(w', w'.base, mem.Accepting(W.Arrive(n)))
  {
    assert n % MODULUS == n;
    W.MarkRemembers(w, mem, n);
    SmallBase(mem, n);
    SameBase(w.Mark(n).0, mem.After(W.Arrive(n)).b, mem.Accepting(W.Arrive(n)));
  }

  lemma MarkedOk(l: Link, d: Datagram)
    requires SenderOk(l) && WindowOk(l) && Open(l.rx) && |l.slots| <= HALF && d in l.wire
    requires !MemoryOf(l).Forgets(W.Arrive(d.number))
    ensures var w' := l.rx.window.Mark(d.number).0;
            && |w'.bits| == 2048 && w'.base < HALF
            && W.Remembers(w', w'.base, if l.rx.Accepts(d) then l.accepted + {d.number} else l.accepted)
  {
    SentIsNear(l, d);
    BaseAfter(l.rx.window, MemoryOf(l), d.number);
    AcceptedOrNot(MemoryOf(l), d.number);
  }

  /** A jump is always accepted. */
  lemma JumpsAreAccepted(l: Link, d: Datagram)
    requires SenderOk(l) && WindowOk(l) && Open(l.rx) && |l.slots| <= HALF && d in l.wire
    requires MemoryOf(l).Forgets(W.Arrive(d.number))
    ensures l.rx.Accepts(d)
  {
    SentIsNear(l, d);
    W.JumpRemembersOne(l.rx.window, l.rx.window.base, l.accepted, d.number);
  }

  lemma WindowAfter(l: Link, d: Datagram, now: nat)
    ensures var l' := Receive(l, d, now);
            && l'.accepted == (if l.rx.Accepts(d) then l.accepted + {d.number} else l.accepted)
            && (Open(l'.rx) ==> Open(l.rx) && l'.rx.window == l.rx.window.Mark(d.number).0)
  {
    HandleFramesKeeps(l.rx.Noting(d), d.frames, now);
    StaysShut(l.rx.Noting(d), d.frames, now);
  }

  lemma StaysShut(r: Receiver, fs: seq<F.Frame>, now: nat)
    ensures Open(r.HandleFrames(fs, now).0) ==> Open(r)
    decreases |fs|
  {
    if fs != [] {
      StaysShut(r.HandleFrame(fs[0], now).0, fs[1..], now);
    }
  }

  lemma ArriveWindowOk(l: Link, d: Datagram, now: nat)
    requires SenderOk(l) && WindowOk(l) && |l.slots| <= HALF && d in l.wire && !Forgets(l, Arrive(d, now))
    ensures WindowOk(Receive(l, d, now))
  {
    var l' := Receive(l, d, now);
    WindowAfter(l, d, now);
    if Open(l'.rx) {
      if MemoryOf(l).Forgets(W.Arrive(d.number)) {
        JumpsAreAccepted(l, d);
      } else {
        MarkedOk(l, d);
      }
    }
    forall k | k in l'.accepted ensures OnWire(l', k) {
      if k != d.number { assert OnWire(l, k); }
    }
  }

  lemma SameWindowOk(l: Link, l': Link)
    requires WindowOk(l) && l'.rx.window == l.rx.window && l'.accepted == l.accepted && l.wire <= l'.wire
    requires l'.rx.closed == l.rx.closed && l'.rx.crashed == l.rx.crashed
    ensures WindowOk(l')
  {
    forall k | k in l'.accepted ensures OnWire(l', k) {
      var d :| d in l.wire && d.number == k;
      assert d in l'.wire;
    }
  }

  lemma StepWindowOk(l: Link, step: Step)
    requires SenderOk(l) && WindowOk(l) && |l.slots| <= HALF && Enabled(l, step) && !Forgets(l, step)
    ensures WindowOk(Next(l, step))
  {
    if step.Arrive? {
      ArriveWindowOk(l, step.d, step.now);
    } else {
      SameWindowOk(l, Next(l, step));
    }
  }

  /** A step that forgets leaves a state in which some datagram would be accepted again. */
  lemma ForgettingRepeats(l: Link, step: Step)
    requires SenderOk(l) && WindowOk(l) && |l.slots| <= HALF && Enabled(l, step) && Forgets(l, step)
    ensures !NoRepeat(Next(l, step))
  {
    var d, mem, l' := step.d, MemoryOf(l), Next(l, step);
    SentIsNear(l, d);
    var m: nat :| m in l.accepted && m >= d.number - 1024;
    var e :| e in l.wire && e.number == m;
    SentIsNear(l, e);
    W.JumpForgets(l.rx.window, mem.b, mem.acc, d.number, m);
    HandleFramesKeeps(l.rx.Noting(d), d.frames, step.now);
    assert l'.rx.Accepts(e) && e in l'.wire && e.number in l'.accepted;
  }

  lemma StartWindowOk(mtu: u16)
    ensures WindowOk(Start(mtu))
  {
  }

  lemma {:induction false} RunWindowOk(mtu: u16, states: seq<Link>, steps: seq<Step>, n: nat)
    requires IsRun(mtu, states, steps) && n <= |steps| && Bounded(states[n]) && |states[n].slots| <= HALF
    requires forall i :: 0 <= i < n ==> !Forgets(states[i], steps[i])
    ensures SenderOk(states[n]) && WindowOk(states[n])
  {
    PrefixInv(mtu, states, steps, n);
    if n == 0 {
      StartWindowOk(mtu);
    } else {
      SlotsGrow(states[n - 1], steps[n - 1]);
      RunWindowOk(mtu, states, steps, n - 1);
      StepWindowOk(states[n - 1], steps[n - 1]);
    }
  }

  lemma {:induction false} RunGrows(mtu: u16, states: seq<Link>, steps: seq<Step>, i: nat, n: nat)
    requires IsRun(mtu, states, steps) && i <= n <= |steps|
    ensures |states[i].slots| <= |states[n].slots| && |states[i].splits| <= |states[n].splits|
    decreases n - i
  {
    if i < n {
      SlotsGrow(states[n - 1], steps[n - 1]);
      RunGrows(mtu, states, steps, i, n - 1);
    }
  }

  /** In every run of at most 2^23 datagrams: it never comes to a state in which the network can
      have a datagram accepted a second time, if and only if no step makes the window of an open
      receiver forget. */
  lemma AcceptedOnceExactly(mtu: u16, states: seq<Link>, steps: seq<Step>)
    requires IsRun(mtu, states, steps) && Bounded(states[|steps|]) && |states[|steps|].slots| <= HALF
    ensures (forall i :: 0 <= i <= |steps| ==> NoRepeat(states[i]))
            <==> (forall i :: 0 <= i < |steps| ==> !Forgets(states[i], steps[i]))
  {
    if n :| 0 <= n < |steps| && Forgets(states[n], steps[n]) {
      var i := FirstForget(states, steps, n);
      RunGrows(mtu, states, steps, i, |steps|);
      RunWindowOk(mtu, states, steps, i);
      ForgettingRepeats(states[i], steps[i]);
      assert !NoRepeat(states[i + 1]);
    } else {
      forall i | 0 <= i <= |steps| ensures NoRepeat(states[i]) {
        RunGrows(mtu, states, steps, i, |steps|);
        RunWindowOk(mtu, states, steps, i);
        WindowOkNoRepeat(states[i]);
      }
    }
  }

  lemma {:induction false} FirstForget(states: seq<Link>, steps: seq<Step>, n: nat) returns (i: nat)
    requires n < |steps| < |states| && Forgets(states[n], steps[n])
    ensures i <= n && Forgets(states[i], steps[i])
    ensures forall j :: 0 <= j < i ==> !Forgets(states[j], steps[j])
  {
    if j :| 0 <= j < n && Forgets(states[j], steps[j]) {
      i := FirstForget(states, steps, j);
    } else {
      i := n;
    }
  }

  // ----- fragmented messages -----

  /** The datagram with this chunk has been accepted. */
  ghost predicate HasPiece(l: Link, m: nat, i: nat) {
    exists k :: k in l.accepted && k < |l.slots| && l.slots[k] == Piece(m, i)
  }

  /** Every chunk has been sent in one datagram at most, those of a send under way up to where
      it stands. */
  ghost predicate PiecesOk(l: Link) {
    && (forall j, k :: 0 <= j < k < |l.slots| && l.slots[j].Piece? ==> l.slots[j] != l.slots[k])
    && (forall k :: 0 <= k < |l.slots| && l.slots[k].Piece? ==>
          && l.slots[k].message < |l.splits|
          && (l.slots[k].message == |l.splits| - 1 && l.tx.cut.Some? ==> l.slots[k].index < l.tx.cut.value.index))
  }

  /** The fragments held came in accepted datagrams. */
  ghost predicate HeldOk(l: Link, fragments: G.FragmentState) {
    forall id :: id in fragments.splits ==>
      forall i :: i in fragments.splits[id].fragments ==> HasPiece(l, id, i)
  }

  ghost predicate AllPieces(l: Link, m: nat) {
    m < |l.splits| && l.tx.ChunkSize() > 0 && forall i :: 0 <= i < |ChunksOf(l, m)| ==> HasPiece(l, m, i)
  }

  /** For a message that has been handed over all chunks have been accepted, and it has been
      handed over once. */
  ghost predicate HandedOk(l: Link) {
    && (forall d :: d in l.delivered && d.Reassembled? ==> AllPieces(l, d.id))
    && HandedOnce(l.delivered)
  }

  ghost predicate HandedOnce(out: seq<Delivery>) {
    forall i, j :: 0 <= i < j < |out| && out[i].Reassembled? && out[j].Reassembled? ==> out[i].id != out[j].id
  }

  ghost predicate OnceInv(l: Link) {
    WindowOk(l) && PiecesOk(l) && HeldOk(l, l.rx.fragments) && HandedOk(l)
  }

  lemma HasPieceGrows(l: Link, l': Link, m: nat, i: nat)
    requires HasPiece(l, m, i) && l.slots <= l'.slots && l.accepted <= l'.accepted
    ensures HasPiece(l', m, i)
  {
    var k :| k in l.accepted && k < |l.slots| && l.slots[k] == Piece(m, i);
    assert l'.slots[k] == l.slots[k];
  }

  lemma AllPiecesGrow(l: Link, l': Link, m: nat)
    requires AllPieces(l, m) && Extends(l, l') && l.accepted <= l'.accepted
    ensures AllPieces(l', m)
  {
    assert l'.splits[m] == l.splits[m];
    forall i | 0 <= i < |ChunksOf(l', m)| ensures HasPiece(l', m, i) {
      HasPieceGrows(l, l', m, i);
    }
  }

  lemma GrowHeld(l: Link, l': Link, fragments: G.FragmentState)
    requires HeldOk(l, fragments) && Extends(l, l') && l.accepted <= l'.accepted
    ensures HeldOk(l', fragments)
  {
    forall id, i | id in fragments.splits && i in fragments.splits[id].fragments ensures HasPiece(l', id, i) {
      HasPieceGrows(l, l', id, i);
    }
  }

  lemma GrowHanded(l: Link, l': Link)
    requires HandedOk(l) && Extends(l, l') && l.accepted <= l'.accepted && l'.delivered == l.delivered
    ensures HandedOk(l')
  {
    forall d | d in l.delivered && d.Reassembled? ensures AllPieces(l', d.id) {
      AllPiecesGrow(l, l', d.id);
    }
  }

  lemma SubmitPieces(l: Link, data: Data)
    requires PiecesOk(l) && Enabled(l, Submit(data))
    ensures PiecesOk(Next(l, Submit(data)))
  {
  }

  lemma FragmentPieces(l: Link)
    requires PiecesOk(l) && l.tx.Cutting() && l.splits != []
    ensures PiecesOk(SendFragment(l))
  {
    var l' := SendFragment(l);
    forall j | 0 <= j < |l.slots| ensures l.slots[j] != Piece(|l.splits| - 1, l.tx.cut.value.index) {
    }
    assert l'.slots[|l.slots|] == Piece(|l.splits| - 1, l.tx.cut.value.index);
  }

  /** The chunk of a new number is not among those of accepted datagrams. */
  lemma NewPiece(l: Link, k: u24)
    requires PiecesOk(l) && k < |l.slots| && l.slots[k].Piece? && k !in l.accepted
    ensures !HasPiece(l, l.slots[k].message, l.slots[k].index)
  {
    forall j | j in l.accepted && j < |l.slots| ensures l.slots[j] != l.slots[k] {
      if j < k {
        assert l.slots[k] != l.slots[j];
      } else {
        assert l.slots[j] != l.slots[k];
      }
    }
  }

  /** A completed entry had all the other chunks. */
  lemma CompleteHadAll(entry: Option<G.Entry>, chunks: seq<Data>, index: u32, now: nat)
    requires entry.Some? ==> G.Collects(entry.value, chunks)
    requires index < |chunks| < 0x1_0000_0000
    requires G.Absorb(entry, index, |chunks|, chunks[index], now).1.Some?
    ensures forall i :: 0 <= i < |chunks| && i != index ==> entry.Some? && i in entry.value.fragments
  {
    var fragments := entry.GetOr(G.Entry(|chunks|, map[], now)).fragments;
    G.AddedFragment(fragments, chunks, index);
    forall i: u32 | i < |chunks| && i != index ensures i in fragments {
      assert i in G.Upto(|chunks|);
      assert i in fragments[index := chunks[index]].Keys;
    }
  }

  /** What one piece leaves in the queue, and what it completes. */
  lemma PieceTaken(l: Link, l': Link, q: G.FragmentState, m: u16, i: u32, count: u32, now: nat)
    requires SplitsOk(l, q) && HeldOk(l', q) && m < |l.splits| && l.tx.ChunkSize() > 0
    requires i < |ChunksOf(l, m)| < 0x1_0000_0000 && HasPiece(l', m, i)
    requires count == |ChunksOf(l, m)| || count == 0
    ensures var (q', whole) := q.Insert(m, i, count, ChunksOf(l, m)[i], now);
            && HeldOk(l', q')
            && (whole.Some? ==> forall j :: 0 <= j < |ChunksOf(l, m)| ==> HasPiece(l', m, j))
  {
    var chunks := ChunksOf(l, m);
    if count > 0 && !q.Full(m) && G.Absorb(q.Lookup(m), i, |chunks|, chunks[i], now).1.Some? {
      CompleteHadAll(q.Lookup(m), chunks, i, now);
      forall j | 0 <= j < |chunks| ensures HasPiece(l', m, j) {
        if j != i { assert (j as u32) in q.splits[m].fragments; }
      }
    }
  }

  lemma AppendedOnce(out: seq<Delivery>, id: u16, data: Data)
    requires HandedOnce(out) && forall d :: d in out && d.Reassembled? ==> d.id != id
    ensures HandedOnce(out + [Reassembled(id, data)])
  {
    var all := out + [Reassembled(id, data)];
    forall i, j | 0 <= i < j < |all| && all[i].Reassembled? && all[j].Reassembled? ensures all[i].id != all[j].id {
      assert all[i] in out;
    }
  }

  /** Handling a genuine frame under a number accepted just now, in state `l'`. */
  lemma FrameOnce(l: Link, l': Link, r: Receiver, k: u24, now: nat)
    requires SenderOk(l) && Bounded(l) && k < |l.slots| && SlotOk(l, l.slots[k])
    requires SplitsOk(l, r.fragments) && HeldOk(l', r.fragments)
    requires l'.slots == l.slots && l'.splits == l.splits && l'.tx == l.tx && l'.counts == l.counts
    requires k in l'.accepted && !r.closed
    ensures var (r', out) := r.HandleFrame(SlotFrame(l, k, l.slots[k]), now);
            && HeldOk(l', r'.fragments)
            && ((forall d :: d in out ==> !d.Reassembled?)
                || (l.slots[k].Piece? && AllPieces(l', l.slots[k].message)
                    && exists data :: out == [Reassembled(l.slots[k].message, data)]))
  {
    var slot, f := l.slots[k], SlotFrame(l, k, l.slots[k]);
    if slot.Piece? && Passes(f.payload) {
      PieceFrame(l, k, slot);
      assert HasPiece(l', slot.message, slot.index);
      SplitFrameHandled(r, f, f.split.value, now);
      PieceTaken(l, l', r.fragments, slot.message, slot.index, f.split.value.count, now);
    }
  }

  lemma HandOver(l: Link, out: seq<Delivery>, l': Link, m: u16, data: Data)
    requires HandedOk(l) && l'.splits == l.splits && l'.slots == l.slots && l'.tx == l.tx
    requires l'.counts == l.counts
    requires l.accepted <= l'.accepted && !AllPieces(l, m) && AllPieces(l', m)
    requires out == [Reassembled(m, data)] && l'.delivered == l.delivered + out
    ensures HandedOk(l')
  {
    AppendedOnce(l.delivered, m, data);
    forall d | d in l'.delivered && d.Reassembled? ensures AllPieces(l', d.id) {
      if d in l.delivered {
        AllPiecesGrow(l, l', d.id);
      }
    }
  }

  lemma HandNothing(l: Link, out: seq<Delivery>, l': Link)
    requires HandedOk(l) && l'.splits == l.splits && l'.slots == l.slots && l'.tx == l.tx
    requires l'.counts == l.counts
    requires l.accepted <= l'.accepted && (forall d :: d in out ==> !d.Reassembled?)
    requires l'.delivered == l.delivered + out
    ensures HandedOk(l')
  {
    forall d | d in l'.delivered && d.Reassembled? ensures AllPieces(l', d.id) {
      assert d in l.delivered;
      AllPiecesGrow(l, l', d.id);
    }
    forall j | |l.delivered| <= j < |l'.delivered| ensures !l'.delivered[j].Reassembled? {
      assert l'.delivered[j] in out;
    }
  }

  lemma AcceptOnce(l: Link, d: Datagram, now: nat)
    requires Inv(l) && Bounded(l) && OnceInv(l) && d in l.wire && l.rx.Accepts(d) && d.number !in l.accepted
    ensures HeldOk(Receive(l, d, now), Receive(l, d, now).rx.fragments) && HandedOk(Receive(l, d, now))
  {
    var l', r, k := Receive(l, d, now), l.rx.Noting(d), d.number;
    assert Genuine(l, d);
    OneFrameDatagram(l.rx, d, now);
    GrowHeld(l, l', r.fragments);
    FrameOnce(l, l', r, k, now);
    var out := r.HandleFrame(d.frames[0], now).1;
    if forall e :: e in out ==> !e.Reassembled? {
      HandNothing(l, out, l');
    } else {
      var m := l.slots[k].message;
      NewPiece(l, k);
      assert !AllPieces(l, m);
      HandOver(l, out, l', m, out[0].data);
    }
  }

  lemma ArriveOnce(l: Link, d: Datagram, now: nat)
    requires Inv(l) && Bounded(l) && |l.slots| <= HALF && OnceInv(l) && d in l.wire && !Forgets(l, Arrive(d, now))
    ensures OnceInv(Receive(l, d, now))
  {
    ArriveWindowOk(l, d, now);
    WindowOkNoRepeat(l);
    if l.rx.Accepts(d) {
      AcceptOnce(l, d, now);
    } else {
      HandNothing(l, [], Receive(l, d, now));
    }
  }

  lemma CleanupOnce(l: Link, now: nat)
    requires OnceInv(l)
    ensures OnceInv(l.(rx := l.rx.Cleanup(now)))
  {
    var l' := l.(rx := l.rx.Cleanup(now));
    SameWindowOk(l, l');
    GrowHeld(l, l', l.rx.fragments);
    GrowHanded(l, l');
  }

  lemma SendOnce(l: Link, l': Link)
    requires OnceInv(l) && PiecesOk(l') && Extends(l, l') && l'.accepted == l.accepted
    requires l'.rx.window == l.rx.window && l'.rx.fragments == l.rx.fragments
    requires l'.rx.closed == l.rx.closed && l'.rx.crashed == l.rx.crashed
    requires l.wire <= l'.wire && l'.delivered == l.delivered
    ensures OnceInv(l')
  {
    SameWindowOk(l, l');
    GrowHeld(l, l', l.rx.fragments);
    GrowHanded(l, l');
  }

  lemma AckOnce(l: Link, packet: seq<byte>)
    requires OnceInv(l)
    ensures OnceInv(AckReceived(l, packet))
  {
    SendOnce(l, AckReceived(l, packet));
  }

  lemma ResendOnce(l: Link, now: nat, rtt: nat)
    requires OnceInv(l)
    ensures OnceInv(Retransmit(l, now, rtt))
  {
    SendOnce(l, Retransmit(l, now, rtt));
  }

  lemma SubmitOnce(l: Link, data: Data)
    requires OnceInv(l) && Enabled(l, Submit(data))
    ensures OnceInv(Next(l, Submit(data)))
  {
    SubmitPieces(l, data);
    SubmitExtends(l, data);
    SendOnce(l, Next(l, Submit(data)));
  }

  lemma FragmentOnce(l: Link)
    requires OnceInv(l) && Enabled(l, Fragment)
    ensures OnceInv(SendFragment(l))
  {
    FragmentPieces(l);
    FragmentExtends(l);
    SendOnce(l, SendFragment(l));
  }

  lemma StepOnce(l: Link, step: Step)
    requires Inv(l) && Bounded(l) && |l.slots| <= HALF && OnceInv(l) && Enabled(l, step) && !Forgets(l, step)
    ensures OnceInv(Next(l, step))
  {
    match step
    case Arrive(d, now) => ArriveOnce(l, d, now);
    case Submit(data) => SubmitOnce(l, data);
    case Fragment => FragmentOnce(l);
    case Enqueue(now) => SendOnce(l, QueueIt(l, now));
    case AckArrives(packet) => AckOnce(l, packet);
    case Resend(now, rtt) => ResendOnce(l, now, rtt);
    case FlushAcks => SendOnce(l, Flush(l));
    case Cleanup(now) => CleanupOnce(l, now);
  }

  lemma {:induction false} RunOnce(mtu: u16, states: seq<Link>, steps: seq<Step>, n: nat)
    requires IsRun(mtu, states, steps) && n <= |steps| && Bounded(states[n]) && |states[n].slots| <= HALF
    requires forall i :: 0 <= i < n ==> !Forgets(states[i], steps[i])
    ensures OnceInv(states[n])
  {
    if n == 0 {
      StartWindowOk(mtu);
    } else {
      SlotsGrow(states[n - 1], steps[n - 1]);
      RunOnce(mtu, states, steps, n - 1);
      PrefixInv(mtu, states, steps, n - 1);
      StepOnce(states[n - 1], steps[n - 1]);
    }
  }

  /** In every run of at most 2^23 datagrams no step of which makes the window forget, every
      fragmented message is handed over at most once. */
  lemma HandedOverOnce(mtu: u16, states: seq<Link>, steps: seq<Step>)
    requires IsRun(mtu, states, steps) && Bounded(states[|steps|]) && |states[|steps|].slots| <= HALF
    requires forall i :: 0 <= i < |steps| ==> !Forgets(states[i], steps[i])
    ensures HandedOnce(states[|steps|].delivered)
  {
    RunOnce(mtu, states, steps, |steps|);
  }

  // ----- the first window -----

  lemma SmallNeverForgets(mtu: u16, states: seq<Link>, steps: seq<Step>)
    requires IsRun(mtu, states, steps) && Bounded(states[|steps|]) && |states[|steps|].slots| <= 2048
    ensures forall i :: 0 <= i < |steps| ==> !Forgets(states[i], steps[i])
  {
    forall i | 0 <= i < |steps| ensures !Forgets(states[i], steps[i]) {
      RunGrows(mtu, states, steps, i, |steps|);
      PrefixInv(mtu, states, steps, i);
      if steps[i].Arrive? {
        assert Genuine(states[i], steps[i].d);
        assert !MemoryOf(states[i]).Jumps(steps[i].d.number);
      }
    }
  }

  /** In every run of at most 2048 datagrams, whatever the network does, no datagram is ever
      accepted twice and no fragmented message handed over twice. */
  lemma FirstWindowOnce(mtu: u16, states: seq<Link>, steps: seq<Step>)
    requires IsRun(mtu, states, steps) && Bounded(states[|steps|]) && |states[|steps|].slots| <= 2048
    ensures forall i :: 0 <= i <= |steps| ==> NoRepeat(states[i])
    ensures HandedOnce(states[|steps|].delivered)
  {
    SmallNeverForgets(mtu, states, steps);
    AcceptedOnceExactly(mtu, states, steps);
    HandedOverOnce(mtu, states, steps);
  }

  // ----- one datagram more -----

  ghost predicate Reachable(mtu: u16, l: Link) {
    exists states: seq<Link>, steps: seq<Step> :: IsRun(mtu, states, steps) && states[|steps|] == l
  }

  lemma ReachStart(mtu: u16)
    ensures Reachable(mtu, Start(mtu))
  {
    var states, steps: seq<Step> := [Start(mtu)], [];
    assert IsRun(mtu, states, steps) && states[|steps|] == Start(mtu);
  }

  lemma ReachNext(mtu: u16, l: Link, step: Step)
    requires Reachable(mtu, l) && Enabled(l, step)
    ensures Reachable(mtu, Next(l, step))
  {
    var states: seq<Link>, steps: seq<Step> :| IsRun(mtu, states, steps) && states[|steps|] == l;
    var states', steps' := states + [Next(l, step)], steps + [step];
    forall i | 0 <= i < |steps'|
      ensures Enabled(states'[i], steps'[i]) && states'[i + 1] == Next(states'[i], steps'[i])
    {
      if i < |steps| { assert states'[i] == states[i] && states'[i + 1] == states[i + 1]; }
    }
    assert IsRun(mtu, states', steps') && states'[|steps'|] == Next(l, step);
  }

  lemma ReachInv(mtu: u16, l: Link)
    requires Reachable(mtu, l) && Bounded(l)
    ensures Inv(l)
  {
    var states: seq<Link>, steps: seq<Step> :| IsRun(mtu, states, steps) && states[|steps|] == l;
    RunInv(mtu, states, steps);
  }

  /** After one more one-byte message. */
  ghost function Fill(l: Link): Link {
    QueueIt(SubmitWhole(l, [1]), 0)
  }

  /** After `n` of them. */
  ghost function Filled(l: Link, n: nat): Link {
    if n == 0 then l else Fill(Filled(l, n - 1))
  }

  /** Between two messages. */
  ghost predicate Idle(l: Link) {
    l.tx.cut.None? && l.unqueued.None? && l.tx.mtu > 80
  }

  ghost predicate SameReceiver(l: Link, l': Link) {
    l'.rx == l.rx && l'.delivered == l.delivered && l'.accepted == l.accepted && l.wire <= l'.wire
  }

  lemma FillReach(mtu: u16, l: Link)
    requires Reachable(mtu, l) && Idle(l)
    ensures var l' := Fill(l);
            && Reachable(mtu, l') && Idle(l') && SameReceiver(l, l') && l'.tx.mtu == l.tx.mtu
            && l'.tx.splitId == l.tx.splitId && l'.splits == l.splits && |l'.slots| == |l.slots| + 1
            && l.tx.NextDatagram(None, [1]) in l'.wire
  {
    ReachNext(mtu, l, Submit([1]));
    ReachNext(mtu, SubmitWhole(l, [1]), Enqueue(0));
  }

  lemma {:induction false} FilledReach(mtu: u16, l: Link, n: nat)
    requires Reachable(mtu, l) && Idle(l)
    ensures var l' := Filled(l, n);
            && Reachable(mtu, l') && Idle(l') && SameReceiver(l, l') && l'.tx.mtu == l.tx.mtu
            && l'.tx.splitId == l.tx.splitId && l'.splits == l.splits && |l'.slots| == |l.slots| + n
  {
    if n > 0 {
      FilledReach(mtu, l, n - 1);
      FillReach(mtu, Filled(l, n - 1));
    }
  }

  /** An ordered one-byte message on channel 0, not the first. */
  ghost predicate Filler(d: Datagram) {
    && d.number > 0 && |d.frames| == 1 && d.frames[0].payload == [1] && d.frames[0].split.None?
    && d.frames[0].reliability == F.ReliableOrdered
    && d.frames[0].orderIndex == Some(d.number) && d.frames[0].orderChannel == 0
  }

  lemma FillerSent(l: Link)
    requires SenderOk(l) && 0 < |l.slots| < MODULUS
    ensures var d := l.tx.NextDatagram(None, [1]); Filler(d) && d.number == |l.slots|
  {
  }

  /** The last of the one-byte messages, under the number before the next. */
  lemma FilledLast(mtu: u16, l: Link, n: nat) returns (d: Datagram)
    requires Reachable(mtu, l) && Idle(l) && n > 0
    requires 0 < |l.slots| && |l.slots| + n <= MODULUS && |l.splits| <= 0x1_0000
    ensures d in Filled(l, n).wire && d.number == |l.slots| + n - 1 && Filler(d)
  {
    FilledReach(mtu, l, n - 1);
    FillReach(mtu, Filled(l, n - 1));
    ReachInv(mtu, Filled(l, n - 1));
    FillerSent(Filled(l, n - 1));
    d := Filled(l, n - 1).tx.NextDatagram(None, [1]);
  }

  function Ones(n: nat): (data: Data)
    ensures |data| == n && forall i :: 0 <= i < n ==> data[i] == 1
  {
    if n == 0 then [] else Ones(n - 1) + [1]
  }

  lemma {:induction false} OnesPass(data: Data, size: nat, start: nat)
    requires size > 0 && forall i :: 0 <= i < |data| ==> data[i] == 1
    ensures AllPass(G.ChunksFrom(data, size, start))
    decreases |data| - start
  {
    if start < |data| {
      OnesPass(data, size, start + size);
      assert Passes(data[start..G.Min(start + size, |data|)]);
    }
  }

  /** The smallest message that is fragmented has at most 41 chunks. */
  lemma FewChunks(mtu: u16)
    requires mtu > 80
    ensures var chunks := G.Chunks(Ones(mtu - 59), mtu - 80);
            && 1 <= |chunks| <= 41 && AllPass(chunks) && G.Join(chunks) == Ones(mtu - 59)
            && Announced(mtu - 59, mtu - 80) == |chunks|
  {
    var data, size: nat := Ones(mtu - 59), mtu - 80;
    OnesPass(data, size, 0);
    G.ChunksPartition(data, size);
    AnnouncedCount(mtu, data);
    if size >= 21 {
      assert G.ChunksFrom(data, size, 2 * size) == [];
      assert |G.ChunksFrom(data, size, size)| <= 1;
    } else {
      G.CountAtMost(data, size, 0);
    }
  }

  /** The first `k` fragments of the message have left, under the numbers from 1024 on. */
  ghost predicate Launched(mtu: u16, l: Link, chunks: seq<Data>, k: nat, ds: seq<Datagram>) {
    && Reachable(mtu, l) && k <= |chunks| < 1000 && l.tx.mtu == mtu > 80
    && l.tx.cut == CutBefore(chunks, 0, |chunks|, k) && l.unqueued.None?
    && |l.slots| == 1024 + k && |l.splits| == 1 && |ds| == k
    && l.rx == NewReceiver() && l.delivered == []
    && (forall i :: 0 <= i < k ==> ds[i] in l.wire && ds[i].number == 1024 + i && CarriesOne(ds[i], 0, chunks, i))
  }

  lemma StartCutting(mtu: u16) returns (l: Link)
    requires mtu > 80
    ensures Launched(mtu, l, G.Chunks(Ones(mtu - 59), mtu - 80), 0, [])
  {
    ReachStart(mtu);
    FilledReach(mtu, Start(mtu), 1024);
    var l1, data := Filled(Start(mtu), 1024), Ones(mtu - 59);
    FewChunks(mtu);
    ReachNext(mtu, l1, Submit(data));
    l := SubmitCut(l1, data);
  }

  lemma FragmentCarries(tx: Sender, chunks: seq<Data>, i: u32)
    requires tx.sendSeq < MODULUS && i < |chunks| < 0x1_0000_0000 && tx.cut == Some(Cut(chunks, 0, |chunks|, i))
    ensures tx.NextFragment().number == tx.sendSeq && CarriesOne(tx.NextFragment(), 0, chunks, i)
    ensures tx.NextCut() == CutBefore(chunks, 0, |chunks|, i + 1)
  {
  }

  lemma LaunchOne(mtu: u16, l: Link, chunks: seq<Data>, k: nat, ds: seq<Datagram>) returns (l': Link, ds': seq<Datagram>)
    requires Launched(mtu, l, chunks, k, ds) && k < |chunks|
    ensures Launched(mtu, l', chunks, k + 1, ds')
  {
    assert l.tx.sendSeq == |l.slots| by { ReachInv(mtu, l); }
    FragmentCarries(l.tx, chunks, k);
    ReachNext(mtu, l, Fragment);
    ReachNext(mtu, SendFragment(l), Enqueue(0));
    l' := QueueIt(SendFragment(l), 0);
    ds' := ds + [l.tx.NextFragment()];
  }

  lemma {:induction false} LaunchSome(mtu: u16, chunks: seq<Data>, k: nat) returns (l: Link, ds: seq<Datagram>)
    requires mtu > 80 && chunks == G.Chunks(Ones(mtu - 59), mtu - 80) && k <= |chunks|
    ensures Launched(mtu, l, chunks, k, ds)
  {
    if k == 0 {
      l := StartCutting(mtu);
      ds := [];
    } else {
      l, ds := LaunchSome(mtu, chunks, k - 1);
      l, ds := LaunchOne(mtu, l, chunks, k - 1, ds);
    }
  }

  /** A reachable state in which 2049 datagrams have been sent and nothing has arrived: the
      fragments of a message under the numbers from 1024 on, and 2048 is a message by itself. */
  ghost predicate AllSent(mtu: u16, l: Link, chunks: seq<Data>, ds: seq<Datagram>, last: Datagram) {
    && Reachable(mtu, l) && |l.slots| == 2049 && l.rx == NewReceiver() && l.delivered == []
    && 1 <= |chunks| == |ds| < 1000 && Fragments(l, chunks, ds)
    && last in l.wire && last.number == 2048 && Filler(last)
  }

  ghost predicate Fragments(l: Link, chunks: seq<Data>, ds: seq<Datagram>)
    requires |ds| == |chunks|
  {
    forall i :: 0 <= i < |ds| ==> ds[i] in l.wire && ds[i].number == 1024 + i && CarriesOne(ds[i], 0, chunks, i)
  }

  lemma SendAll(mtu: u16) returns (l: Link, ds: seq<Datagram>, last: Datagram)
    requires mtu > 80
    ensures AllSent(mtu, l, G.Chunks(Ones(mtu - 59), mtu - 80), ds, last)
  {
    var chunks := G.Chunks(Ones(mtu - 59), mtu - 80);
    FewChunks(mtu);
    var l1;
    l1, ds := LaunchSome(mtu, chunks, |chunks|);
    var n := 1025 - |chunks|;
    FilledReach(mtu, l1, n);
    last := FilledLast(mtu, l1, n);
    l := Filled(l1, n);
  }

  // What the receiver makes of the arrivals.

  lemma ArriveReach(mtu: u16, l: Link, d: Datagram)
    requires Reachable(mtu, l) && d in l.wire
    ensures var l' := Receive(l, d, 0);
            && Reachable(mtu, l') && l'.wire == l.wire && l'.slots == l.slots
            && l'.rx == l.rx.HandleDatagram(d, 0).0 && l'.delivered == l.delivered + l.rx.HandleDatagram(d, 0).1
  {
    ReachNext(mtu, l, Arrive(d, 0));
  }

  /** The queue holds at most the split 0. */
  ghost predicate OneSplit(q: G.FragmentState) {
    q.splits.Keys <= {0} && q == G.New(512).(splits := q.splits)
  }

  /** The next fragment in order: the last one leaves the queue empty. */
  lemma NextInserted(q: G.FragmentState, chunks: seq<Data>, k: u32)
    requires OneSplit(q) && k < |chunks| && G.Collecting(q.Lookup(0), chunks, G.Upto(k))
    ensures var (q', out) := q.Insert(0, k, |chunks|, chunks[k], 0);
            && OneSplit(q') && out == (if k + 1 == |chunks| then Some(G.Join(chunks)) else None)
            && (if k + 1 == |chunks| then q' == G.New(512) else G.Collecting(q'.Lookup(0), chunks, G.Upto(k + 1)))
  {
    OneSplitRoom(q);
    assert G.Upto(k) + {k} == G.Upto(k + 1);
    G.UptoWhole(k + 1, |chunks|);
    G.ArrivalCollects(q, G.Arrival(0, k, |chunks|, chunks[k], 0), chunks, G.Upto(k));
    StillOneSplit(q, k, |chunks|, chunks[k]);
    if k + 1 == |chunks| {
      EmptySplits(q.Insert(0, k, |chunks|, chunks[k], 0).0);
    }
  }

  lemma StillOneSplit(q: G.FragmentState, k: u32, count: u32, data: Data)
    requires OneSplit(q)
    ensures OneSplit(q.Insert(0, k, count, data, 0).0)
  {
  }

  lemma EmptySplits(q: G.FragmentState)
    requires OneSplit(q) && q.Lookup(0) == None
    ensures q == G.New(512)
  {
    assert q.splits.Keys == {};
    assert q.splits == map[];
  }

  lemma OneSplitRoom(q: G.FragmentState)
    requires OneSplit(q)
    ensures !q.Full(0)
  {
    if 0 !in q.splits {
      assert q.splits.Keys == {};
    }
  }

  lemma TakeFragment(r: Receiver, d: Datagram, chunks: seq<Data>, i: u32)
    requires r.Accepts(d) && CarriesOne(d, 0, chunks, i) && Passes(chunks[i])
    ensures var (q, whole) := r.fragments.Insert(0, i, |chunks|, chunks[i], 0);
            r.HandleDatagram(d, 0)
            == (r.Noting(d).(fragments := q), if whole.Some? then [Reassembled(0, whole.value)] else [])
  {
    OneFrameDatagram(r, d, 0);
    SplitFrameHandled(r.Noting(d), d.frames[0], d.frames[0].split.value, 0);
  }

  /** The numbers of the first `k` fragments. */
  function Nums(k: nat): (s: set<nat>)
    ensures forall m :: m in s <==> 1024 <= m < 1024 + k
  {
    if k == 0 then {} else Nums(k - 1) + {1024 + k - 1}
  }

  /** `k` of the fragments have arrived, at a window with base `b` that had accepted `acc`. */
  ghost predicate Progress(l0: Link, l: Link, chunks: seq<Data>, b: nat, acc: set<nat>, k: nat) {
    && l.wire == l0.wire && l.slots == l0.slots && l.rx.channels == l0.rx.channels && Open(l.rx)
    && |l.rx.window.bits| == 2048 && W.Remembers(l.rx.window, b, acc + Nums(k)) && OneSplit(l.rx.fragments)
    && k <= |chunks| < 1000
    && (if k < |chunks| then l.delivered == l0.delivered && G.Collecting(l.rx.fragments.Lookup(0), chunks, G.Upto(k))
        else l.delivered == l0.delivered + [Reassembled(0, G.Join(chunks))] && l.rx.fragments == G.New(512))
  }

  lemma WindowTakes(w: W.WindowState, b: nat, acc: set<nat>, k: nat)
    requires W.Remembers(w, b, acc + Nums(k)) && |w.bits| == 2048 && b <= 1024 && 1024 + k < b + 2048 && k < 1000
    requires 1024 + k !in acc
    ensures var (w', d) := w.Mark(1024 + k);
            d == Some(true) && |w'.bits| == 2048 && W.Remembers(w', b, acc + Nums(k + 1))
  {
    assert (1024 + k) % MODULUS == 1024 + k;
    W.MarkInside(w, b, acc + Nums(k), 1024 + k);
    assert acc + Nums(k) + {1024 + k} == acc + Nums(k + 1);
  }

  lemma OneArrives(mtu: u16, l0: Link, l: Link, chunks: seq<Data>, d: Datagram, b: nat, acc: set<nat>, k: nat)
    requires Reachable(mtu, l) && Progress(l0, l, chunks, b, acc, k) && k < |chunks| && AllPass(chunks)
    requires d in l.wire && d.number == 1024 + k && CarriesOne(d, 0, chunks, k)
    requires b <= 1024 && 1024 + k < b + 2048 && 1024 + k !in acc
    ensures Reachable(mtu, Receive(l, d, 0)) && Progress(l0, Receive(l, d, 0), chunks, b, acc, k + 1)
  {
    WindowTakes(l.rx.window, b, acc, k);
    TakeFragment(l.rx, d, chunks, k);
    NextInserted(l.rx.fragments, chunks, k);
    ArriveReach(mtu, l, d);
    assert l.delivered + [] == l.delivered;
  }

  /** None of the numbers is one of the fragments'. */
  ghost predicate Apart(acc: set<nat>) {
    forall m :: m in acc ==> m < 1024 || m >= 2024
  }

  lemma FragmentAt(l: Link, chunks: seq<Data>, ds: seq<Datagram>, k: nat)
    requires |ds| == |chunks| && Fragments(l, chunks, ds) && k < |ds|
    ensures ds[k] in l.wire && ds[k].number == 1024 + k && CarriesOne(ds[k], 0, chunks, k)
  {
  }

  lemma {:induction false} SomeArrive(
    mtu: u16, l0: Link, chunks: seq<Data>, ds: seq<Datagram>, b: nat, acc: set<nat>, k: nat)
    returns (l: Link)
    requires Reachable(mtu, l0) && Progress(l0, l0, chunks, b, acc, 0) && AllPass(chunks)
    requires |ds| == |chunks| && Fragments(l0, chunks, ds) && k <= |chunks|
    requires b <= 1024 && Apart(acc)
    ensures Reachable(mtu, l) && Progress(l0, l, chunks, b, acc, k)
  {
    if k == 0 {
      l := l0;
    } else {
      var before := SomeArrive(mtu, l0, chunks, ds, b, acc, k - 1);
      FragmentAt(l0, chunks, ds, k - 1);
      OneArrives(mtu, l0, before, chunks, ds[k - 1], b, acc, k - 1);
      l := Receive(before, ds[k - 1], 0);
    }
  }

  lemma ReadyToGather(l: Link, chunks: seq<Data>, b: nat, acc: set<nat>)
    requires Open(l.rx) && l.rx.fragments == G.New(512) && 1 <= |chunks| < 1000
    requires |l.rx.window.bits| == 2048 && W.Remembers(l.rx.window, b, acc)
    ensures Progress(l, l, chunks, b, acc, 0)
  {
    assert acc + Nums(0) == acc;
    G.UptoWhole(0, |chunks|);
  }

  lemma TakeFiller(r: Receiver, d: Datagram)
    requires r.Accepts(d) && Filler(d) && r.channels == NewChannels(16)
    ensures r.HandleDatagram(d, 0).1 == []
    ensures var r' := r.HandleDatagram(d, 0).0;
            r'.fragments == r.fragments && r'.window == r.window.Mark(d.number).0 && Open(r')
  {
    OneFrameDatagram(r, d, 0);
  }

  /** The datagram 2048 makes the window jump. */
  lemma LastTaken(r: Receiver, last: Datagram, acc: set<nat>)
    requires last.number == 2048 && Filler(last) && Open(r) && r.channels == NewChannels(16)
    requires |r.window.bits| == 2048 && W.Remembers(r.window, 0, acc)
    ensures var (r', out) := r.HandleDatagram(last, 0);
            && out == [] && Open(r') && r'.fragments == r.fragments
            && |r'.window.bits| == 2048 && W.Remembers(r'.window, 1024, {2048})
  {
    assert 2048 % MODULUS == 2048;
    W.JumpRemembersOne(r.window, 0, acc, 2048);
    TakeFiller(r, last);
  }

  lemma LastArrives(mtu: u16, l: Link, last: Datagram, acc: set<nat>)
    requires Reachable(mtu, l) && last in l.wire && last.number == 2048 && Filler(last)
    requires Open(l.rx) && l.rx.channels == NewChannels(16)
    requires |l.rx.window.bits| == 2048 && W.Remembers(l.rx.window, 0, acc)
    ensures var l' := Receive(l, last, 0);
            && Reachable(mtu, l') && l'.wire == l.wire && l'.slots == l.slots && l'.delivered == l.delivered
            && Open(l'.rx) && l'.rx.fragments == l.rx.fragments
            && |l'.rx.window.bits| == 2048 && W.Remembers(l'.rx.window, 1024, {2048})
  {
    LastTaken(l.rx, last, acc);
    ArriveReach(mtu, l, last);
    assert l.delivered + [] == l.delivered;
  }

  /** One datagram more than the window has places is enough: for every MTU at which messages are
      cut into fragments that fit, there is a run with 2049 datagrams in which a fragmented
      message is handed over twice. */
  lemma HandedOverTwice(mtu: u16)
    requires mtu > 80
    ensures exists l :: Reachable(mtu, l) && |l.slots| == 2049
                        && l.delivered == [Reassembled(0, Ones(mtu - 59)), Reassembled(0, Ones(mtu - 59))]
  {
    var chunks := G.Chunks(Ones(mtu - 59), mtu - 80);
    FewChunks(mtu);
    var l, ds, last := SendAll(mtu);
    ReadyToGather(l, chunks, 0, {});
    var l1 := SomeArrive(mtu, l, chunks, ds, 0, {}, |chunks|);
    LastArrives(mtu, l1, last, {} + Nums(|chunks|));
    var l2 := Receive(l1, last, 0);
    ReadyToGather(l2, chunks, 1024, {2048});
    var l3 := SomeArrive(mtu, l2, chunks, ds, 1024, {2048}, |chunks|);
    assert l3.delivered == [Reassembled(0, Ones(mtu - 59)), Reassembled(0, Ones(mtu - 59))];
  }

  // ----- the bytes on the wire -----

  /** Under the first sixteen numbers, and those like them, a run on frames is a run on bytes:
      the bytes of every datagram on the wire that fit the receive buffer have the effect of its
      frames. */
  lemma ArriveIsBytes(l: Link, d: Datagram, now: nat)
    requires SenderOk(l) && d in l.wire && F.ReadsAsEmptyFrame(d.number) && F.AllFit(d.frames)
    ensures var bytes := F.DatagramBytes(d.number, F.FramesBytes(d.frames));
            |bytes| <= 2048 ==> l.rx.HandleBytes(Received(bytes), now) == l.rx.HandleDatagram(d, now)
  {
    assert Genuine(l, d);
    var f := SlotFrame(l, d.number, l.slots[d.number]);
    assert F.CarriedAll([f]) == [F.Carried(f)] by {
      assert [f][1..] == [];
    }
    assert d.frames[0] == f;
    F.NothingLeft(f.payload, []);
    BytesAreFrames(l.rx, d, now);
  }
}
