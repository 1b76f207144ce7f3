/**
 The receive window: a bitmap that slides over 24-bit sequence numbers. `WindowState` is its
 value, `RecvWindow` the object that updates it in place; the lemmas relate it to the
 unbounded set of the true numbers that have arrived.
 */
module RecvWindows {
  import opened Wrappers
  import opened Bytes
  import opened Uint24

  function Clear(n: nat): (s: seq<bool>)
    ensures |s| == n && forall i :: 0 <= i < n ==> !s[i]
  {
    seq(n, _ => false)
  }

  /** The number of leading set bits. */
  function LeadingOnes(s: seq<bool>): (n: nat)
    ensures n <= |s| && (forall i :: 0 <= i < n ==> s[i]) && (n < |s| ==> !s[n])
  {
    if s == [] || !s[0] then 0 else 1 + LeadingOnes(s[1..])
  }

  datatype WindowState = WindowState(
    bits: seq<bool>, base: u24, highest: u32, received: nat, duplicates: nat, outOfOrder: nat)
  {
    function Offset(x: u32): u24 {
      Mask24(WrappingSub(x, base))
    }

    function SlideTo(x: u32): WindowState {
      var shift := Offset(x);
      if shift == 0 then this
      else if shift >= |bits| then
        this.(bits := Clear(|bits|), base := Mask24(WrappingSub(x, AsU32(|bits| / 2))))
      else
        this.(bits := bits[shift..] + Clear(shift), base := Mask24(WrappingAdd(base, shift)))
    }

    function Mark(x: u32): (WindowState, Option<bool>) {
      if SeqLessThan(x, base) && received > 0 then (this, None)
      else if Offset(x) >= |bits| then
        var slid := SlideTo(x);
        var offset := slid.Offset(x);
        if offset >= |bits| then (slid, None)
        else
          (slid.(bits := slid.bits[offset := true], received := received + 1,
                 highest := if SeqLessThan(highest, x) then x else highest),
           Some(true))
      else if bits[Offset(x)] then (this.(duplicates := duplicates + 1), Some(false))
      else
        (this.(bits := bits[Offset(x) := true], received := received + 1,
               outOfOrder := if x != WrappingAdd(highest, 1) && received > 0 then outOfOrder + 1 else outOfOrder,
               highest := if SeqLessThan(highest, x) || received == 0 then x else highest),
         Some(true))
    }

    predicate HasReceived(x: u32) {
      !SeqLessThan(x, base) && Offset(x) < |bits| && bits[Offset(x)]
    }

    function Advance(): WindowState {
      var shift := LeadingOnes(bits);
      if shift > 0 then SlideTo(WrappingAdd(base, AsU32(shift))) else this
    }

    /** The numbers at the unset offsets below `n`. */
    function MissingBelow(n: nat): seq<u24>
      requires n <= |bits|
    {
      if n == 0 then []
      else MissingBelow(n - 1) + if bits[n - 1] then [] else [Mask24(WrappingAdd(base, AsU32(n - 1)))]
    }

    function Missing(): seq<u24>
      requires |bits| > 0
    {
      if highest == base && received == 0 then []
      else MissingBelow(if Offset(highest) < |bits| then Offset(highest) + 1 else |bits|)
    }
  }

  function New(size: nat): WindowState {
    WindowState(Clear(size), 0, 0, 0, 0, 0)
  }

  // ----- against the unbounded set of true numbers -----

  /** The window with true base `b` remembers the set `acc` of true numbers it has accepted:
      none of them lies beyond the window, and the bits say which numbers within it are
      among them. */
  ghost predicate Remembers(w: WindowState, b: nat, acc: set<nat>) {
    && w.base == b % MODULUS
    && (w.received > 0 <==> acc != {})
    && (b > 0 ==> acc != {})
    && (forall n :: n in acc ==> n < b + |w.bits|)
    && (forall o :: 0 <= o < |w.bits| ==> (w.bits[o] <==> b + o in acc))
  }

  /** Moreover, everything below the base has been accepted, and the counter counts the set. */
  ghost predicate Tracks(w: WindowState, b: nat, seen: set<nat>) {
    Remembers(w, b, seen) && w.received == |seen| && forall n: nat :: n < b ==> n in seen
  }

  lemma OffsetOf(w: WindowState, b: nat, n: int)
    requires w.base == b % MODULUS
    ensures w.Offset(n % MODULUS) == (n - b) % MODULUS
    ensures 0 <= n - b < MODULUS ==> w.Offset(n % MODULUS) == n - b
  {
    MaskedDifference(n % MODULUS, b % MODULUS);
    DifferenceOfResidues(n, b);
  }

  lemma MarkNew(w: WindowState, b: nat, acc: set<nat>, n: nat)
    requires Remembers(w, b, acc) && b <= n < b + |w.bits| && n !in acc
    requires w.Offset(n % MODULUS) == n - b && !SeqLessThan(n % MODULUS, w.base)
    ensures w.Mark(n % MODULUS).1 == Some(true)
    ensures Remembers(w.Mark(n % MODULUS).0, b, acc + {n})
    ensures w.Mark(n % MODULUS).0.received == w.received + 1
  {
    var w' := w.Mark(n % MODULUS).0;
    forall o | 0 <= o < |w'.bits| ensures w'.bits[o] <==> b + o in acc + {n} {
      assert w'.bits[o] == if o == n - b then true else w.bits[o];
    }
  }

  /** An arrival below the base, or within the window, is decided by the set. */
  lemma MarkInside(w: WindowState, b: nat, acc: set<nat>, n: nat)
    requires Remembers(w, b, acc) && |w.bits| <= HALF
    requires b - HALF <= n < b + |w.bits|
    ensures w.Mark(n % MODULUS).1 == if n < b then None else Some(n !in acc)
    ensures Remembers(w.Mark(n % MODULUS).0, b, if n < b then acc else acc + {n})
    ensures |w.Mark(n % MODULUS).0.bits| == |w.bits|
    ensures w.Mark(n % MODULUS).0.received == w.received + if b <= n && n !in acc then 1 else 0
    ensures w.Mark(n % MODULUS).0.duplicates == w.duplicates + if b <= n && n in acc then 1 else 0
  {
    SeqLessThanAgrees(n, b);
    OffsetOf(w, b, n);
    if b <= n {
      if n in acc {
        assert acc + {n} == acc;
      } else {
        assert w.bits[n - b] == false;
        MarkNew(w, b, acc, n);
      }
    }
  }

  /** `has_received` agrees with what is remembered. */
  lemma HasReceivedAgrees(w: WindowState, b: nat, acc: set<nat>, n: nat)
    requires Remembers(w, b, acc) && |w.bits| <= HALF
    requires b - HALF <= n < b + HALF
    ensures w.HasReceived(n % MODULUS) <==> b <= n && n in acc
  {
    SeqLessThanAgrees(n, b);
    OffsetOf(w, b, n);
  }

  /** Below the base nothing counts as received, and once something has been, nothing is accepted,
      in a window of any size. */
  lemma BelowNotReceived(w: WindowState, b: nat, n: nat)
    requires w.base == b % MODULUS && b - HALF <= n < b
    ensures !w.HasReceived(n % MODULUS)
    ensures w.received > 0 ==> w.Mark(n % MODULUS) == (w, None)
  {
    SeqLessThanAgrees(n, b);
  }

  /** While everything below the base has been seen, an arrival in reach is decided as the
      unbounded set decides it. */
  lemma MarkDecides(w: WindowState, b: nat, seen: set<nat>, n: nat)
    requires Tracks(w, b, seen) && |w.bits| <= HALF
    requires b - HALF <= n < b + |w.bits|
    ensures w.Mark(n % MODULUS).1 == if n < b then None else Some(n !in seen)
    ensures Tracks(w.Mark(n % MODULUS).0, b, seen + {n})
    ensures |w.Mark(n % MODULUS).0.bits| == |w.bits|
    ensures w.HasReceived(n % MODULUS) <==> b <= n && n in seen
    ensures w.Mark(n % MODULUS).0.duplicates == w.duplicates + if b <= n && n in seen then 1 else 0
  {
    MarkInside(w, b, seen, n);
    HasReceivedAgrees(w, b, seen, n);
    if n in seen {
      assert seen + {n} == seen;
    } else {
      assert |seen + {n}| == |seen| + 1;
    }
  }

  /** The first number from `b` on that is not in the set. */
  ghost function FirstGap(b: nat, seen: set<nat>): (g: nat)
    ensures b <= g && g !in seen && forall n :: b <= n < g ==> n in seen
    decreases |seen|
  {
    if b !in seen then b
    else
      var g := FirstGap(b + 1, seen - {b});
      assert forall n: nat :: b <= n < g ==> n in seen by {
        forall n: nat | b <= n < g ensures n in seen {
          if n > b { assert n in seen - {b}; }
        }
      }
      g
  }

  lemma GapIsLeadingOnes(w: WindowState, b: nat, acc: set<nat>)
    requires Remembers(w, b, acc)
    ensures FirstGap(b, acc) == b + LeadingOnes(w.bits)
  {
    var g, k := FirstGap(b, acc), LeadingOnes(w.bits);
    assert b + k !in acc by {
      if k < |w.bits| { assert !w.bits[k]; }
    }
    forall n | b <= n < b + k ensures n in acc {
      assert w.bits[n - b];
    }
  }

  lemma StepBack(x: u32, n: int, half: nat)
    requires x % MODULUS == n % MODULUS && half < MODULUS
    ensures var back := Mask24(WrappingSub(x, half));
            back == (n - half) % MODULUS && Mask24(WrappingSub(x, back)) == half
  {
    var back := Mask24(WrappingSub(x, half));
    MaskedDifference(x, half);
    var k := x / MODULUS - n / MODULUS;
    assert x - half == n - half + k * MODULUS;
    ModuloShift(n - half, k);
    MaskedDifference(x, back);
    var q := (x - half) / MODULUS;
    assert x - back == half + q * MODULUS;
    ModuloShift(half, q);
  }

  /** The base after a reset lies half a window before the number that caused it. */
  lemma ResetBase(w: WindowState, x: u32, n: int)
    requires x % MODULUS == n % MODULUS && |w.bits| <= HALF
    requires w.Offset(x) >= |w.bits| > 0
    ensures var w' := w.SlideTo(x);
            && w'.bits == Clear(|w.bits|)
            && w'.base == (n - |w.bits| / 2) % MODULUS
            && w'.Offset(x) == |w.bits| / 2
  {
    var half := |w.bits| / 2;
    StepBack(x, n, half);
    assert AsU32(half) == half;
  }

  lemma BaseOffset(w: WindowState, b: nat, shift: nat)
    requires w.base == b % MODULUS && shift <= HALF
    ensures AsU32(shift) == shift
    ensures w.Offset(WrappingAdd(w.base, shift)) == shift
    ensures WrappingAdd(w.base, shift) % MODULUS == (b + shift) % MODULUS
  {
    var x := WrappingAdd(w.base, shift);
    assert x == w.base + shift;
    MaskedDifference(x, w.base);
    ModuloShift(x, b / MODULUS);
    assert b + shift == x + (b / MODULUS) * MODULUS;
  }

  /** Dropping leading places, all of them received, and moving the base past them. */
  lemma ShiftRemembers(w: WindowState, w': WindowState, b: nat, acc: set<nat>, shift: nat)
    requires Remembers(w, b, acc) && 0 < shift <= |w.bits|
    requires forall o :: 0 <= o < shift ==> w.bits[o]
    requires w' == w.(bits := w.bits[shift..] + Clear(shift), base := (b + shift) % MODULUS)
    ensures Remembers(w', b + shift, acc)
  {
    assert w.bits[0];
    forall o | 0 <= o < |w'.bits| ensures w'.bits[o] <==> (b + shift) + o in acc {
      if o + shift < |w.bits| {
        assert w'.bits[o] == w.bits[o + shift];
        assert b + (o + shift) == (b + shift) + o;
      }
    }
  }

  lemma PartialAdvance(w: WindowState, b: nat)
    requires w.base == b % MODULUS && |w.bits| <= HALF && 0 < LeadingOnes(w.bits) < |w.bits|
    ensures var shift := LeadingOnes(w.bits);
            w.Advance() == w.(bits := w.bits[shift..] + Clear(shift), base := (b + shift) % MODULUS)
  {
    BaseOffset(w, b, LeadingOnes(w.bits));
  }

  /** On a full window the base ends half a window before the first unseen number. */
  lemma FullAdvance(w: WindowState, b: nat, acc: set<nat>)
    requires Remembers(w, b, acc) && 0 < |w.bits| <= HALF && LeadingOnes(w.bits) == |w.bits|
    ensures w.Advance().bits == Clear(|w.bits|)
    ensures w.Advance().base == (b + |w.bits| - |w.bits| / 2) % MODULUS
    ensures w.Advance().received == w.received
  {
    var size := |w.bits|;
    BaseOffset(w, b, size);
    ResetBase(w, WrappingAdd(w.base, size), b + size);
  }

  lemma ShortOfMultiple(n: nat, k: nat)
    requires 0 < k < MODULUS && k <= n
    ensures (n - k) % MODULUS != n % MODULUS
  {
    assert n == (n / MODULUS) * MODULUS + n % MODULUS;
    assert n - k == ((n - k) / MODULUS) * MODULUS + (n - k) % MODULUS;
  }

  lemma FullAdvanceRemembers(w: WindowState, b: nat, acc: set<nat>)
    requires Remembers(w, b, acc) && 0 < |w.bits| <= HALF && LeadingOnes(w.bits) == |w.bits|
    ensures Remembers(w.Advance(), b + |w.bits|, acc) <==> |w.bits| == 1
  {
    var size := |w.bits|;
    FullAdvance(w, b, acc);
    assert w.bits[0];
    if size > 1 {
      ShortOfMultiple(b + size, size / 2);
    }
  }

  /** Sliding the base over the received prefix keeps what is remembered if and only if the
      window is not completely full, or is one place wide: a full wider window takes the reset
      branch, goes back half its width and forgets numbers it has accepted. */
  lemma AdvanceRemembers(w: WindowState, b: nat, acc: set<nat>)
    requires Remembers(w, b, acc) && |w.bits| <= HALF
    ensures |w.Advance().bits| == |w.bits| && w.Advance().received == w.received
    ensures Remembers(w.Advance(), FirstGap(b, acc), acc) <==>
              FirstGap(b, acc) < b + |w.bits| || |w.bits| <= 1
  {
    GapIsLeadingOnes(w, b, acc);
    var shift := LeadingOnes(w.bits);
    if shift == 0 {
      assert w.Advance() == w;
    } else if shift < |w.bits| {
      PartialAdvance(w, b);
      ShiftRemembers(w, w.Advance(), b, acc, shift);
    } else {
      FullAdvance(w, b, acc);
      FullAdvanceRemembers(w, b, acc);
    }
  }

  /** The same for a window that has seen everything below its base. */
  lemma AdvanceTracks(w: WindowState, b: nat, seen: set<nat>)
    requires Tracks(w, b, seen) && |w.bits| <= HALF
    ensures |w.Advance().bits| == |w.bits|
    ensures Tracks(w.Advance(), FirstGap(b, seen), seen) <==>
              FirstGap(b, seen) < b + |w.bits| || |w.bits| <= 1
  {
    AdvanceRemembers(w, b, seen);
    forall n: nat | n < FirstGap(b, seen) ensures n in seen {
      assert n < b || b <= n;
    }
  }

  /** What a full window forgets by advancing: the last number it had received is accepted
      as new once more. */
  lemma FullAdvanceForgets(w: WindowState, b: nat, acc: set<nat>)
    requires Remembers(w, b, acc) && 2 <= |w.bits| <= HALF && LeadingOnes(w.bits) == |w.bits|
    ensures b + |w.bits| - 1 in acc
    ensures w.Advance().Mark((b + |w.bits| - 1) % MODULUS).1 == Some(true)
  {
    var size := |w.bits|;
    assert w.bits[size - 1];
    assert b + (size - 1) == b + size - 1;
    FullAdvance(w, b, acc);
    OffsetOf(w.Advance(), b + size - size / 2, b + size - 1);
    SeqLessThanAgrees(b + size - 1, b + size - size / 2);
  }

  // ----- jumps against the set -----

  /** A jump leaves a window that remembers nothing but the number that caused it. */
  lemma JumpRemembersOne(w: WindowState, b: nat, acc: set<nat>, n: nat)
    requires Remembers(w, b, acc) && 0 < |w.bits| <= HALF
    requires b + |w.bits| <= n < b + HALF
    ensures w.Mark(n % MODULUS).1 == Some(true)
    ensures |w.Mark(n % MODULUS).0.bits| == |w.bits|
    ensures Remembers(w.Mark(n % MODULUS).0, n - |w.bits| / 2, {n})
  {
    SeqLessThanAgrees(n, b);
    OffsetOf(w, b, n);
    ResetBase(w, n % MODULUS, n);
    var half := |w.bits| / 2;
    var w' := w.Mark(n % MODULUS).0;
    assert w'.bits == Clear(|w.bits|)[half := true];
    forall o | 0 <= o < |w'.bits| ensures w'.bits[o] <==> n - half + o in {n} {
      assert w'.bits[o] <==> o == half;
    }
  }

  /** After a jump every number before it, down to half a window, is accepted as new, whether
      or not it had been accepted before; below that everything is refused. */
  lemma JumpForgets(w: WindowState, b: nat, acc: set<nat>, n: nat, m: nat)
    requires Remembers(w, b, acc) && 0 < |w.bits| <= HALF
    requires b + |w.bits| <= n < b + HALF && n - HALF <= m < n
    ensures w.Mark(n % MODULUS).0.Mark(m % MODULUS).1 == if m < n - |w.bits| / 2 then None else Some(true)
  {
    JumpRemembersOne(w, b, acc, n);
    var w', half := w.Mark(n % MODULUS).0, |w.bits| / 2;
    if m < n - half {
      SeqLessThanAgrees(m, n - half);
    } else {
      MarkInside(w', n - half, {n}, m);
    }
  }

  /** So a jump keeps what is remembered if and only if everything accepted so far lies more
      than half a window behind it. */
  lemma JumpRemembers(w: WindowState, b: nat, acc: set<nat>, n: nat)
    requires Remembers(w, b, acc) && 0 < |w.bits| <= HALF
    requires b + |w.bits| <= n < b + HALF
    ensures Remembers(w.Mark(n % MODULUS).0, n - |w.bits| / 2, acc + {n}) <==>
              forall m :: m in acc ==> m < n - |w.bits| / 2
  {
    JumpRemembersOne(w, b, acc, n);
    var w', low := w.Mark(n % MODULUS).0, n - |w.bits| / 2;
    if m :| m in acc && m >= low {
      assert !w'.bits[m - low];
      assert low + (m - low) in acc + {n};
    } else {
      forall o | 0 <= o < |w'.bits| ensures w'.bits[o] <==> low + o in acc + {n} {
        assert w'.bits[o] <==> low + o in {n};
      }
    }
  }

  // ----- whole runs -----

  datatype Event = Arrive(n: nat) | AdvanceBase

  function Next(w: WindowState, e: Event): WindowState {
    match e
    case Arrive(n) => w.Mark(n % MODULUS).0
    case AdvanceBase => w.Advance()
  }

  /** The arrivals of a run with the decisions of the bitmap window, and its final state. */
  function WindowRun(w: WindowState, events: seq<Event>): (seq<(nat, Option<bool>)>, WindowState)
    decreases |events|
  {
    if events == [] then ([], w)
    else
      var (out, final) := WindowRun(Next(w, events[0]), events[1..]);
      ((if events[0].Arrive? then [(events[0].n, w.Mark(events[0].n % MODULUS).1)] else []) + out, final)
  }

  /** The specification: a base, the unbounded set `all` of the numbers accepted so far, and
      those of them, `acc`, that have not been forgotten. A number is refused below the base and
      otherwise accepted exactly if it is not in `acc`. Beyond the window it takes the base to
      half a window before itself, and what has been accepted from there on is forgotten; an
      advance over a full window does the same. */
  datatype Memory = Memory(size: nat, b: nat, acc: set<nat>, all: set<nat>) {

    function Decide(n: nat): Option<bool> {
      if n < b then None else Some(n !in acc)
    }

    predicate Jumps(n: nat) {
      n >= b + size
    }

    /** The first number not in `acc` lies beyond the window. */
    ghost predicate Full() {
      FirstGap(b, acc) >= b + size && size > 1
    }

    ghost function After(e: Event): Memory {
      match e
      case Arrive(n) =>
        if n < b then this
        else if Jumps(n) then
          this.(b := n - size / 2, acc := Below(acc, n - size / 2) + {n}, all := all + {n})
        else this.(acc := acc + {n}, all := all + {n})
      case AdvanceBase =>
        if Full() then this.(b := b + size - size / 2, acc := Below(acc, b + size - size / 2))
        else this.(b := FirstGap(b, acc))
    }

    ghost function Run(events: seq<Event>): (seq<(nat, Option<bool>)>, Memory)
      decreases |events|
    {
      if events == [] then ([], this)
      else
        var (out, final) := After(events[0]).Run(events[1..]);
        ((if events[0].Arrive? then [(events[0].n, Decide(events[0].n))] else []) + out, final)
    }

    /** An arrival lies within half the number space of the base, on either side. */
    predicate Near(e: Event) {
      e.Arrive? ==> b - HALF <= e.n < b + HALF
    }

    ghost predicate InReach(events: seq<Event>)
      decreases |events|
    {
      events == [] || (Near(events[0]) && After(events[0]).InReach(events[1..]))
    }

    /** A jump to a number with an accepted one at most half a window behind it, or an advance
        over a full window. */
    ghost predicate Forgets(e: Event) {
      match e
      case Arrive(n) => Jumps(n) && exists m :: m in acc && m >= n - size / 2
      case AdvanceBase => Full()
    }

    ghost predicate NeverForgets(events: seq<Event>)
      decreases |events|
    {
      events == [] || (!Forgets(events[0]) && After(events[0]).NeverForgets(events[1..]))
    }

    /** The set if nothing were forgotten. */
    function Accepting(e: Event): set<nat> {
      if e.Arrive? && e.n >= b then acc + {e.n} else acc
    }

    /** From the base on, nothing is forgotten. */
    ghost predicate Whole() {
      forall m :: m in all && m >= b ==> m in acc
    }

    /** The bitmap remembers everything accepted before, between and after the events. */
    ghost predicate Throughout(w: WindowState, events: seq<Event>)
      decreases |events|
    {
      && Remembers(w, b, all)
      && (events == [] || After(events[0]).Throughout(Next(w, events[0]), events[1..]))
    }
  }

  function Start(size: nat): Memory {
    Memory(size, 0, {}, {})
  }

  ghost function Below(s: set<nat>, low: nat): set<nat> {
    set m | m in s && m < low
  }

  /** Below the base it makes no difference what has been accepted. */
  lemma RemembersBelow(w: WindowState, b: nat, acc: set<nat>, more: set<nat>)
    requires Remembers(w, b, acc) && acc != {} && forall m :: m in more ==> m < b
    ensures Remembers(w, b, more + acc)
  {
    forall o | 0 <= o < |w.bits| ensures w.bits[o] <==> b + o in more + acc {
      assert b + o !in more;
    }
  }

  lemma FullAdvanceKeepsBelow(w: WindowState, b: nat, acc: set<nat>)
    requires Remembers(w, b, acc) && 1 < |w.bits| <= HALF && LeadingOnes(w.bits) == |w.bits|
    ensures var low := b + |w.bits| - |w.bits| / 2;
            && Remembers(w.Advance(), low, Below(acc, low)) && !Remembers(w.Advance(), low, acc)
  {
    var size := |w.bits|;
    var low := b + size - size / 2;
    FullAdvance(w, b, acc);
    assert w.bits[0] && w.bits[size - 1];
    assert b + 0 in acc && b + (size - 1) in acc;
    assert b in Below(acc, low);
    var w' := w.Advance();
    assert !w'.bits[size - 1 - (size - size / 2)] && low + (size - 1 - (size - size / 2)) in acc;
  }

  lemma JumpEvent(w: WindowState, mem: Memory, n: nat)
    requires Remembers(w, mem.b, mem.acc) && 0 < |w.bits| == mem.size <= HALF
    requires mem.Near(Arrive(n)) && mem.Jumps(n)
    ensures var w' := w.Mark(n % MODULUS).0;
            && |w'.bits| == mem.size && w.Mark(n % MODULUS).1 == Some(true) == mem.Decide(n)
            && Remembers(w', mem.After(Arrive(n)).b, mem.After(Arrive(n)).acc)
            && (Remembers(w', mem.After(Arrive(n)).b, mem.Accepting(Arrive(n))) <==> !mem.Forgets(Arrive(n)))
  {
    var low := n - mem.size / 2;
    JumpRemembersOne(w, mem.b, mem.acc, n);
    JumpRemembers(w, mem.b, mem.acc, n);
    RemembersBelow(w.Mark(n % MODULUS).0, low, {n}, Below(mem.acc, low));
  }

  lemma AdvanceEvent(w: WindowState, mem: Memory)
    requires Remembers(w, mem.b, mem.acc) && 0 < |w.bits| == mem.size <= HALF
    ensures var w' := w.Advance();
            && |w'.bits| == mem.size
            && Remembers(w', mem.After(AdvanceBase).b, mem.After(AdvanceBase).acc)
            && (Remembers(w', mem.After(AdvanceBase).b, mem.acc) <==> !mem.Full())
  {
    GapIsLeadingOnes(w, mem.b, mem.acc);
    AdvanceRemembers(w, mem.b, mem.acc);
    if mem.Full() {
      FullAdvanceKeepsBelow(w, mem.b, mem.acc);
    }
  }

  lemma KeepsAccepted(mem: Memory, e: Event)
    requires !mem.Forgets(e)
    ensures mem.After(e).acc == mem.Accepting(e)
  {
    if e.Arrive? && mem.Jumps(e.n) {
      assert Below(mem.acc, e.n - mem.size / 2) == mem.acc;
    }
  }

  /** One event, whether mark, jump or advance: the bitmap decides it by the memory and
      remembers the memory after it; everything accepted is still remembered if and only if the
      event does not forget. */
  lemma EventRemembers(w: WindowState, mem: Memory, e: Event)
    requires Remembers(w, mem.b, mem.acc) && 0 < |w.bits| == mem.size <= HALF && mem.Near(e)
    ensures |Next(w, e).bits| == mem.size == mem.After(e).size
    ensures e.Arrive? ==> w.Mark(e.n % MODULUS).1 == mem.Decide(e.n)
    ensures Remembers(Next(w, e), mem.After(e).b, mem.After(e).acc)
    ensures Remembers(Next(w, e), mem.After(e).b, mem.Accepting(e)) <==> !mem.Forgets(e)
    ensures !mem.Forgets(e) ==> mem.After(e).acc == mem.Accepting(e)
  {
    if !mem.Forgets(e) {
      KeepsAccepted(mem, e);
    }
    match e
    case Arrive(n) =>
      if mem.Jumps(n) {
        JumpEvent(w, mem, n);
      } else {
        MarkInside(w, mem.b, mem.acc, n);
      }
    case AdvanceBase => AdvanceEvent(w, mem);
  }

  /** A number that does not forget, in short. */
  lemma MarkRemembers(w: WindowState, mem: Memory, n: nat)
    requires Remembers(w, mem.b, mem.acc) && 0 < |w.bits| == mem.size <= HALF
    requires mem.Near(Arrive(n)) && !mem.Forgets(Arrive(n))
    ensures |w.Mark(n % MODULUS).0.bits| == mem.size && w.Mark(n % MODULUS).1 == mem.Decide(n)
    ensures Remembers(w.Mark(n % MODULUS).0, mem.After(Arrive(n)).b, mem.Accepting(Arrive(n)))
  {
    EventRemembers(w, mem, Arrive(n));
  }

  lemma {:induction false} RunDecides(w: WindowState, mem: Memory, events: seq<Event>)
    requires Remembers(w, mem.b, mem.acc) && 0 < |w.bits| == mem.size <= HALF && mem.InReach(events)
    ensures WindowRun(w, events).0 == mem.Run(events).0
    ensures var (w', mem') := (WindowRun(w, events).1, mem.Run(events).1);
            Remembers(w', mem'.b, mem'.acc) && |w'.bits| == mem'.size == mem.size
    decreases |events|
  {
    if events != [] {
      EventRemembers(w, mem, events[0]);
      RunDecides(Next(w, events[0]), mem.After(events[0]), events[1..]);
    }
  }

  lemma {:induction false} RunKeepsAll(mem: Memory, events: seq<Event>)
    requires mem.acc == mem.all && mem.NeverForgets(events)
    ensures mem.Run(events).1.acc == mem.Run(events).1.all
    decreases |events|
  {
    if events != [] {
      KeepsAll(mem, events[0]);
      RunKeepsAll(mem.After(events[0]), events[1..]);
    }
  }

  lemma KeepsAll(mem: Memory, e: Event)
    requires mem.acc == mem.all && !mem.Forgets(e)
    ensures mem.After(e).acc == mem.After(e).all == mem.Accepting(e)
  {
    KeepsAccepted(mem, e);
  }

  /** From a new window, over runs of any length, with jumps and advances, across any number of
      wraps: the bitmap decides every arrival exactly as the specification, and `has_received`
      tells what it holds from the base on. In a run that never forgets, that is everything
      accepted so far. */
  lemma WindowRefinesSet(size: nat, events: seq<Event>)
    requires 0 < size <= HALF && Start(size).InReach(events)
    ensures WindowRun(New(size), events).0 == Start(size).Run(events).0
    ensures var (w, mem) := (WindowRun(New(size), events).1, Start(size).Run(events).1);
            && (forall n: nat :: mem.b - HALF <= n < mem.b + HALF ==>
                  (w.HasReceived(n % MODULUS) <==> mem.b <= n && n in mem.acc))
            && (Start(size).NeverForgets(events) ==> mem.acc == mem.all)
  {
    RunDecides(New(size), Start(size), events);
    if Start(size).NeverForgets(events) {
      RunKeepsAll(Start(size), events);
    }
    var w, last := WindowRun(New(size), events).1, Start(size).Run(events).1;
    forall n: nat | last.b - HALF <= n < last.b + HALF
      ensures w.HasReceived(n % MODULUS) <==> last.b <= n && n in last.acc
    {
      HasReceivedAgrees(w, last.b, last.acc, n);
    }
  }

  /** That condition is exact: the bitmap remembers everything accepted throughout a run if and
      only if no event of the run forgets. */
  lemma {:induction false} AgreesExactly(w: WindowState, mem: Memory, events: seq<Event>)
    requires Remembers(w, mem.b, mem.acc) && 0 < |w.bits| == mem.size <= HALF && mem.InReach(events)
    requires mem.acc == mem.all
    ensures mem.Throughout(w, events) <==> mem.NeverForgets(events)
    decreases |events|
  {
    if events != [] {
      EventRemembers(w, mem, events[0]);
      if !mem.Forgets(events[0]) {
        KeepsAll(mem, events[0]);
        AgreesExactly(Next(w, events[0]), mem.After(events[0]), events[1..]);
      } else {
        assert mem.After(events[0]).all == mem.Accepting(events[0]);
        assert !mem.After(events[0]).Throughout(Next(w, events[0]), events[1..]);
      }
    }
  }

  lemma {:induction false} AcceptedIsFresh(mem: Memory, events: seq<Event>, n: nat)
    requires n in mem.acc && mem.NeverForgets(events)
    ensures (n, Some(true)) !in mem.Run(events).0
    decreases |events|
  {
    if events != [] {
      AcceptedIsFresh(mem.After(events[0]), events[1..], n);
    }
  }

  lemma {:induction false} SetAcceptsOnce(mem: Memory, events: seq<Event>, i: nat, j: nat)
    requires mem.NeverForgets(events)
    requires i < j < |mem.Run(events).0| && mem.Run(events).0[i].1 == Some(true)
    ensures mem.Run(events).0[j] != mem.Run(events).0[i]
    decreases |events|
  {
    var next, rest := mem.After(events[0]), events[1..];
    var k := if events[0].Arrive? then 1 else 0;
    var out, tail := mem.Run(events).0, next.Run(rest).0;
    if i >= k {
      assert out[i] == tail[i - k] && out[j] == tail[j - k];
      SetAcceptsOnce(next, rest, i - k, j - k);
    } else {
      assert out[j] == tail[j - k];
      AcceptedIsFresh(next, rest, events[0].n);
    }
  }

  /** No number is accepted twice in a run that never forgets. */
  lemma AcceptsOnce(size: nat, events: seq<Event>, i: nat, j: nat)
    requires 0 < size <= HALF && Start(size).InReach(events) && Start(size).NeverForgets(events)
    requires i < j < |WindowRun(New(size), events).0|
    requires WindowRun(New(size), events).0[i].1 == Some(true)
    ensures WindowRun(New(size), events).0[j] != WindowRun(New(size), events).0[i]
  {
    RunDecides(New(size), Start(size), events);
    SetAcceptsOnce(Start(size), events, i, j);
  }

  // ----- jumps beyond the window -----

  /** A number beyond the window is always accepted; the window then starts half its width
      before the number and holds that number only, so the guarded "still outside" branch is
      taken if and only if the window has no places at all. Once anything has been received
      the base only ever jumps forward. */
  lemma JumpResets(w: WindowState, x: u24)
    requires |w.bits| <= HALF
    requires !(SeqLessThan(x, w.base) && w.received > 0) && w.Offset(x) >= |w.bits|
    ensures w.Mark(x).1 == None <==> |w.bits| == 0
    ensures |w.bits| > 0 ==>
              var w' := w.Mark(x).0;
              && w.Mark(x).1 == Some(true) && |w'.bits| == |w.bits|
              && w'.Offset(x) == |w.bits| / 2
              && (forall o :: 0 <= o < |w'.bits| ==> (w'.bits[o] <==> o == |w.bits| / 2))
              && (w.received > 0 ==> SeqLessThan(w.base, w'.base))
  {
    if |w.bits| > 0 {
      ResetBase(w, x, x);
      if w.received > 0 {
        JumpsForward(w.base, x, |w.bits| / 2);
      }
    }
  }

  lemma JumpsForward(base: u24, x: u24, half: nat)
    requires !SeqLessThan(x, base) && half < Mask24(WrappingSub(x, base))
    ensures SeqLessThan(base, (x - half) % MODULUS)
  {
    assert x % MODULUS == x && base % MODULUS == base;
    MaskedDifference(x, base);
    SeqLessThanByDistance(x, base);
    BackBelow(x - base, half);
    assert half - (x - base) == base - (x - half);
    SeqLessThanByDistance(base, x - half);
  }

  /** Going back from a distance below HALF, by less than it, leaves a negative one. */
  lemma BackBelow(distance: int, half: nat)
    requires half < distance % MODULUS < HALF
    ensures (half - distance) % MODULUS >= HALF
  {
    var d := distance % MODULUS;
    ModuloShift(half - d, 1);
    DifferenceOfResidues(half, distance);
    assert (half - d) + MODULUS < MODULUS;
  }

  // ----- the highest number and the gap report -----

  /** Once anything has been received, the highest number is received and is the last set bit. */
  ghost predicate HighestHeld(w: WindowState) {
    && 0 < |w.bits| <= HALF
    && (w.received == 0 ==> w.base == 0 && w.highest == 0 && w.bits == Clear(|w.bits|))
    && (w.received > 0 ==>
          && w.highest < MODULUS && w.Offset(w.highest) < |w.bits| && w.bits[w.Offset(w.highest)]
          && forall o :: w.Offset(w.highest) < o < |w.bits| ==> !w.bits[o])
  }

  lemma DistanceByOffsets(w: WindowState, x: u24, y: u24)
    ensures (x - y) % MODULUS == (w.Offset(x) - w.Offset(y)) % MODULUS
  {
    MaskedDifference(x, w.base);
    MaskedDifference(y, w.base);
    DifferenceOfResidues(x - w.base, y - w.base);
  }

  /** Within the window, circular comparison is comparison of offsets. */
  lemma CompareOffsets(w: WindowState, x: u24, y: u24)
    requires -HALF < w.Offset(x) - w.Offset(y) < HALF
    ensures SeqLessThan(x, y) <==> w.Offset(x) < w.Offset(y)
  {
    var dx, dy := w.Offset(x), w.Offset(y);
    DistanceByOffsets(w, x, y);
    assert x % MODULUS == x && y % MODULUS == y;
    SeqLessThanByDistance(x, y);
    SeqLessThanByDistance(dx, dy);
    SeqLessThanAgrees(dx, dy);
  }

  lemma SameOffset(w: WindowState, x: u24, y: u24)
    requires w.Offset(x) == w.Offset(y)
    ensures x == y
  {
    DistanceByOffsets(w, x, y);
  }

  /** A number is below the base exactly when its offset lies in the upper half. */
  lemma BelowBase(w: WindowState, x: u24)
    ensures SeqLessThan(x, w.base) <==> w.Offset(x) >= HALF
  {
    assert x % MODULUS == x && w.base % MODULUS == w.base;
    MaskedDifference(x, w.base);
    SeqLessThanByDistance(x, w.base);
  }

  lemma MarkWithin(w: WindowState, x: u24)
    requires HighestHeld(w) && w.received > 0 && w.Offset(x) < |w.bits|
    ensures HighestHeld(w.Mark(x).0)
  {
    BelowBase(w, x);
    CompareOffsets(w, w.highest, x);
  }

  lemma MarkBeyond(w: WindowState, x: u24)
    requires HighestHeld(w) && w.received > 0 && |w.bits| <= w.Offset(x) < HALF
    ensures HighestHeld(w.Mark(x).0)
  {
    BelowBase(w, x);
    CompareOffsets(w, w.highest, x);
    JumpResets(w, x);
  }

  /** Marking keeps the highest number received and in the window, whatever arrives, if and
      only if the very first number is at most 2^23. */
  lemma MarkKeepsHighest(w: WindowState, x: u24)
    requires HighestHeld(w)
    ensures HighestHeld(w.Mark(x).0) <==> w.received > 0 || x <= HALF
  {
    if w.received == 0 {
      FirstMark(w, x);
    } else if w.Offset(x) < |w.bits| {
      MarkWithin(w, x);
    } else if w.Offset(x) < HALF {
      MarkBeyond(w, x);
    } else {
      BelowBase(w, x);
    }
  }

  lemma FirstMark(w: WindowState, x: u24)
    requires HighestHeld(w) && w.received == 0
    ensures HighestHeld(w.Mark(x).0) <==> x <= HALF
  {
    MaskedDifference(x, 0);
    assert w.Offset(x) == x;
    if x >= |w.bits| {
      FirstBeyond(w, x);
    }
  }

  lemma FirstBeyond(w: WindowState, x: u24)
    requires HighestHeld(w) && w.received == 0 && w.Offset(x) == x >= |w.bits|
    ensures HighestHeld(w.Mark(x).0) <==> x <= HALF
  {
    JumpResets(w, x);
    SeqLessThanIsRfc1982(0, x);
    var w' := w.Mark(x).0;
    assert w'.highest == if x <= HALF then x else 0;
    if w'.Offset(0) == w'.Offset(x) {
      SameOffset(w', 0, x);
    }
  }

  /** The entries are unset offsets below `n`, in ascending order of offset. */
  ghost predicate GapsBelow(w: WindowState, n: nat, m: seq<u24>) {
    && (forall i :: 0 <= i < |m| ==>
          w.Offset(m[i]) < n && w.Offset(m[i]) < |w.bits| && !w.bits[w.Offset(m[i])])
    && (forall i, j :: 0 <= i < j < |m| ==> w.Offset(m[i]) < w.Offset(m[j]))
  }

  lemma OffsetBack(w: WindowState, o: nat)
    requires o < MODULUS
    ensures w.Offset(Mask24(WrappingAdd(w.base, AsU32(o)))) == o
  {
    assert WrappingAdd(w.base, AsU32(o)) == w.base + o;
    MaskedDifference(Mask24(w.base + o), w.base);
    assert w.base % MODULUS == w.base;
    DifferenceOfResidues(w.base + o, w.base);
  }

  lemma {:induction false} MissingBelowGaps(w: WindowState, n: nat)
    requires n <= |w.bits| <= HALF
    ensures GapsBelow(w, n, w.MissingBelow(n))
  {
    if n > 0 {
      MissingBelowGaps(w, n - 1);
      OffsetBack(w, n - 1);
    }
  }

  lemma AddBack(x: u24, base: u24)
    ensures (base + (x - base) % MODULUS) % MODULUS == x
  {
    if x >= base {
      assert (x - base) % MODULUS == x - base;
    } else {
      ModuloShift(x - base, 1);
      assert (x - base) % MODULUS == x - base + MODULUS;
    }
  }

  lemma NumberAt(w: WindowState, x: u24)
    ensures Mask24(WrappingAdd(w.base, AsU32(w.Offset(x)))) == x
  {
    var o := w.Offset(x);
    assert o == (x - w.base) % MODULUS by { MaskedDifference(x, w.base); }
    AddBack(x, w.base);
    assert AsU32(o) == o && WrappingAdd(w.base, o) == w.base + o;
  }

  lemma {:induction false} GapIsMissing(w: WindowState, n: nat, x: u24)
    requires n <= |w.bits| <= HALF && w.Offset(x) < n && !w.bits[w.Offset(x)]
    ensures x in w.MissingBelow(n)
  {
    if w.Offset(x) < n - 1 {
      GapIsMissing(w, n - 1, x);
    } else {
      NumberAt(w, x);
    }
  }

  /** The gap report lists, in circular order from the base and without repeats, exactly the
      numbers up to the highest whose bit is unset. */
  ghost predicate ReportsGaps(w: WindowState)
    requires |w.bits| > 0
  {
    && GapsBelow(w, w.Offset(w.highest), w.Missing())
    && forall x: u24 ::
         x in w.Missing() <==> w.Offset(x) < w.Offset(w.highest) && w.Offset(x) < |w.bits| && !w.bits[w.Offset(x)]
  }

  /** While the highest number is held, the gap report is exact. */
  lemma MissingIsGaps(w: WindowState)
    requires HighestHeld(w) && w.received > 0
    ensures ReportsGaps(w)
  {
    var n := w.Offset(w.highest) + 1;
    MissingBelowGaps(w, n);
    forall x: u24 ensures x in w.Missing() <==> w.Offset(x) < n - 1 && !w.bits[w.Offset(x)] {
      if w.Offset(x) < n - 1 && !w.bits[w.Offset(x)] {
        GapIsMissing(w, n, x);
      }
    }
  }

  /** A new window after a run of marks. */
  function MarkAll(size: nat, xs: seq<u24>): WindowState {
    if xs == [] then New(size) else MarkAll(size, xs[..|xs| - 1]).Mark(xs[|xs| - 1]).0
  }

  lemma {:induction false} MarksCount(size: nat, xs: seq<u24>)
    requires 0 < size <= HALF && (xs == [] || xs[0] <= HALF)
    ensures HighestHeld(MarkAll(size, xs)) && (MarkAll(size, xs).received == 0 <==> xs == [])
  {
    if xs != [] {
      var before := xs[..|xs| - 1];
      MarksCount(size, before);
      MarkKeepsHighest(MarkAll(size, before), xs[|xs| - 1]);
      MarkCounts(MarkAll(size, before), xs[|xs| - 1]);
    }
  }

  lemma MarkCounts(w: WindowState, x: u24)
    requires 0 < |w.bits| <= HALF && (w.received == 0 ==> w.bits == Clear(|w.bits|))
    ensures w.Mark(x).0.received > 0
  {
    if w.received == 0 && w.Offset(x) >= |w.bits| {
      JumpResets(w, x);
    }
  }

  lemma BadFirstMark(size: nat, x: u24)
    requires 0 < size <= HALF < x
    ensures !HighestHeld(MarkAll(size, [x]))
  {
    FirstMark(New(size), x);
    assert [x][..0] == [];
  }

  /** In every state of a run of marks the highest number is received and in the window, if and
      only if the first number of the run is at most 2^23. */
  lemma MarksKeepHighest(size: nat, xs: seq<u24>)
    requires 0 < size <= HALF
    ensures (forall k :: 0 <= k <= |xs| ==> HighestHeld(MarkAll(size, xs[..k]))) <==> xs == [] || xs[0] <= HALF
  {
    if xs != [] && xs[0] > HALF {
      BadFirstMark(size, xs[0]);
      assert xs[..1] == [xs[0]];
    } else {
      forall k | 0 <= k <= |xs| ensures HighestHeld(MarkAll(size, xs[..k])) {
        MarksCount(size, xs[..k]);
      }
    }
  }

  /** In every such state the gap report is exact. */
  lemma MarksReportGaps(size: nat, xs: seq<u24>)
    requires 0 < size <= HALF && xs != [] && xs[0] <= HALF
    ensures |MarkAll(size, xs).bits| > 0 && ReportsGaps(MarkAll(size, xs))
  {
    MarksCount(size, xs);
    MissingIsGaps(MarkAll(size, xs));
  }

  // ----- the highest number over runs -----

  ghost function Top(s: set<nat>): (h: nat)
    requires s != {}
    ensures h in s && forall n :: n in s ==> n <= h
  {
    var n :| n in s;
    if s == {n} then n
    else
      assert s == {n} + (s - {n});
      var h := Top(s - {n});
      if n > h then n else h
  }

  lemma TopAdded(s: set<nat>, n: nat)
    ensures Top(s + {n}) == if s != {} && Top(s) > n then Top(s) else n
  {
  }

  /** The window is that of the memory, and knows the highest number accepted. */
  ghost predicate Knows(w: WindowState, mem: Memory) {
    && Remembers(w, mem.b, mem.acc) && 0 < |w.bits| == mem.size <= HALF && mem.acc <= mem.all
    && (mem.acc == {} <==> mem.all == {})
    && (mem.all == {} ==> w.highest == 0)
    && (mem.all != {} ==> w.highest == Top(mem.all) % MODULUS && mem.b - 1 <= Top(mem.all) < mem.b + mem.size)
  }

  lemma HighestUpdate(w: WindowState, x: u32)
    requires w.Mark(x).1 == Some(true)
    ensures w.Mark(x).0.highest
         == if SeqLessThan(w.highest, x) || (w.received == 0 && w.Offset(x) < |w.bits|) then x else w.highest
  {
  }

  lemma HighestSame(w: WindowState, x: u32)
    requires w.Mark(x).1 != Some(true) && |w.bits| > 0 && w.Offset(x) < |w.bits|
    ensures w.Mark(x).0.highest == w.highest
  {
  }

  /** The highest number is the highest one accepted so far, within the window or by a jump. */
  lemma MarkKnowsHighest(w: WindowState, mem: Memory, n: nat)
    requires Knows(w, mem) && mem.Near(Arrive(n)) && n >= mem.b
    ensures w.Mark(n % MODULUS).0.highest == Top(mem.all + {n}) % MODULUS
  {
    EventRemembers(w, mem, Arrive(n));
    TopAdded(mem.all, n);
    OffsetOf(w, mem.b, n);
    if n in mem.acc {
      HighestSame(w, n % MODULUS);
    } else {
      HighestUpdate(w, n % MODULUS);
      if mem.all != {} {
        SeqLessThanAgrees(Top(mem.all), n);
      } else if n > 0 {
        SeqLessThanAgrees(0, n);
      }
    }
  }

  lemma BelowStays(w: WindowState, b: nat, acc: set<nat>, n: nat)
    requires Remembers(w, b, acc) && |w.bits| <= HALF && b - HALF <= n < b
    ensures w.Mark(n % MODULUS).0 == w
  {
    SeqLessThanAgrees(n, b);
  }

  lemma AdvanceKeepsHighest(w: WindowState)
    ensures w.Advance().highest == w.highest
  {
  }

  lemma AdvanceInBounds(mem: Memory)
    requires mem.acc <= mem.all && mem.all != {} && mem.b - 1 <= Top(mem.all) < mem.b + mem.size
    ensures mem.After(AdvanceBase).b - 1 <= Top(mem.all) < mem.After(AdvanceBase).b + mem.size
    ensures mem.After(AdvanceBase).b >= mem.b
  {
    var g := FirstGap(mem.b, mem.acc);
    if g > mem.b {
      assert (g - 1) as nat in mem.acc;
    }
  }

  /** Every event, forgetting or not, keeps the highest number known. */
  lemma EventKnows(w: WindowState, mem: Memory, e: Event)
    requires Knows(w, mem) && mem.Near(e)
    ensures Knows(Next(w, e), mem.After(e))
  {
    EventRemembers(w, mem, e);
    match e
    case Arrive(n) =>
      if n < mem.b {
        BelowStays(w, mem.b, mem.acc, n);
      } else {
        MarkKnowsHighest(w, mem, n);
        TopAdded(mem.all, n);
      }
    case AdvanceBase =>
      AdvanceKeepsHighest(w);
      if mem.all != {} {
        AdvanceInBounds(mem);
      }
  }

  lemma {:induction false} RunKnows(w: WindowState, mem: Memory, events: seq<Event>)
    requires Knows(w, mem) && mem.InReach(events)
    ensures Knows(WindowRun(w, events).1, mem.Run(events).1)
    decreases |events|
  {
    if events != [] {
      EventKnows(w, mem, events[0]);
      RunKnows(Next(w, events[0]), mem.After(events[0]), events[1..]);
    }
  }

  // ----- the counters of arrivals -----

  lemma MarkKeepsSize(w: WindowState, x: u32)
    ensures |w.Mark(x).0.bits| == |w.bits|
  {
  }

  lemma MarkTotals(w: WindowState, x: u32)
    requires |w.bits| > 0
    ensures var (w', isNew) := w.Mark(x);
            && w'.received == w.received + (if isNew == Some(true) then 1 else 0)
            && w'.duplicates == w.duplicates + (if isNew == Some(false) then 1 else 0)
  {
  }

  /** How often a run has decided so. */
  function Decided(out: seq<(nat, Option<bool>)>, isNew: Option<bool>): nat {
    if out == [] then 0 else (if out[0].1 == isNew then 1 else 0) + Decided(out[1..], isNew)
  }

  lemma EventTotals(w: WindowState, mem: Memory, e: Event)
    requires Remembers(w, mem.b, mem.acc) && 0 < |w.bits| == mem.size <= HALF && mem.Near(e)
    ensures Next(w, e).received == w.received + if e.Arrive? && mem.Decide(e.n) == Some(true) then 1 else 0
    ensures Next(w, e).duplicates == w.duplicates + if e.Arrive? && mem.Decide(e.n) == Some(false) then 1 else 0
  {
    EventRemembers(w, mem, e);
    match e
    case Arrive(n) => MarkTotals(w, n % MODULUS);
    case AdvanceBase => 
  }

  /** The totals of a run count what the specification accepts, and what it refuses as a
      repetition, jumps and numbers accepted anew after being forgotten included. */
  lemma {:induction false} TotalsCount(w: WindowState, mem: Memory, events: seq<Event>)
    requires Remembers(w, mem.b, mem.acc) && 0 < |w.bits| == mem.size <= HALF && mem.InReach(events)
    ensures var (last, out) := (WindowRun(w, events).1, mem.Run(events).0);
            && last.received == w.received + Decided(out, Some(true))
            && last.duplicates == w.duplicates + Decided(out, Some(false))
    decreases |events|
  {
    if events != [] {
      var rest := mem.After(events[0]).Run(events[1..]).0;
      EventTotals(w, mem, events[0]);
      EventRemembers(w, mem, events[0]);
      TotalsCount(Next(w, events[0]), mem.After(events[0]), events[1..]);
      if events[0].Arrive? {
        assert mem.Run(events).0[1..] == rest;
      } else {
        assert mem.Run(events).0 == rest;
      }
    }
  }

  // ----- the out-of-order counter -----

  lemma NextOfResidue(n: nat, h: nat)
    requires -MODULUS < n - (h + 1) < MODULUS
    ensures n % MODULUS == h % MODULUS + 1 <==> n == h + 1 && h % MODULUS != MODULUS - 1
  {
    var p, q := h / MODULUS, n / MODULUS;
    assert h == p * MODULUS + h % MODULUS && n == q * MODULUS + n % MODULUS;
  }

  lemma OutOfOrderStep(w: WindowState, x: u32)
    ensures w.Mark(x).0.outOfOrder
         == w.outOfOrder + if w.Mark(x).1 == Some(true) && w.received > 0 && w.Offset(x) < |w.bits|
                              && x != WrappingAdd(w.highest, 1) then 1 else 0
  {
  }

  /** The number is counted as out of order: a new one within the window, not the first, unless
      it follows the highest one without crossing the wrap. */
  ghost predicate Counted(mem: Memory, n: nat) {
    && mem.b <= n && !mem.Jumps(n) && n !in mem.acc && mem.all != {}
    && !(n == Top(mem.all) + 1 && Top(mem.all) % MODULUS != MODULUS - 1)
  }

  lemma InsideFollows(w: WindowState, mem: Memory, n: nat)
    requires Knows(w, mem) && mem.b <= n && !mem.Jumps(n) && mem.all != {}
    ensures n % MODULUS == WrappingAdd(w.highest, 1)
            <==> n == Top(mem.all) + 1 && Top(mem.all) % MODULUS != MODULUS - 1
  {
    NextOfResidue(n, Top(mem.all));
  }

  /** Beyond the window nothing is counted, whether or not it is in order; across the wrap, a
      number in order is counted, since the successor of the highest is taken in 32 bits. */
  lemma CountsOutOfOrder(w: WindowState, mem: Memory, n: nat)
    requires Knows(w, mem) && mem.Near(Arrive(n))
    ensures w.Mark(n % MODULUS).0.outOfOrder == w.outOfOrder + if Counted(mem, n) then 1 else 0
  {
    EventRemembers(w, mem, Arrive(n));
    OffsetOf(w, mem.b, n);
    OutOfOrderStep(w, n % MODULUS);
    if mem.all != {} && mem.b <= n && !mem.Jumps(n) {
      InsideFollows(w, mem, n);
    }
  }

  // ----- the gap report -----

  /** The true numbers from `b` to `h` that are not in the set, reduced modulo 2^24. */
  ghost function TrueMissing(b: nat, h: int, acc: set<nat>): seq<u24>
    decreases h - b
  {
    if h < b then [] else TrueMissing(b, h - 1, acc) + Gap(h, acc)
  }

  ghost function Gap(n: nat, acc: set<nat>): (gap: seq<u24>)
    ensures |gap| == if n in acc then 0 else 1
  {
    if n in acc then [] else [n % MODULUS]
  }

  lemma {:induction false} MissingBelowIsTrue(w: WindowState, b: nat, acc: set<nat>, n: nat)
    requires Remembers(w, b, acc) && n <= |w.bits| <= HALF
    ensures w.MissingBelow(n) == TrueMissing(b, b + n - 1, acc)
  {
    if n > 0 {
      MissingBelowIsTrue(w, b, acc, n - 1);
      assert w.bits[n - 1] <==> b + (n - 1) in acc;
      BaseOffset(w, b, n - 1);
    }
  }

  lemma MissingReached(w: WindowState, b: nat, acc: set<nat>, h: nat)
    requires Remembers(w, b, acc) && 0 < |w.bits| <= HALF && acc != {}
    requires w.highest == h % MODULUS && b <= h < b + |w.bits|
    ensures w.Missing() == TrueMissing(b, h, acc)
  {
    OffsetOf(w, b, h);
    MissingBelowIsTrue(w, b, acc, h - b + 1);
  }

  lemma MissingPassed(w: WindowState, b: nat, acc: set<nat>)
    requires Remembers(w, b, acc) && 0 < |w.bits| <= HALF && acc != {}
    requires w.highest == (b - 1) % MODULUS && forall m :: m in acc ==> m < b
    ensures |w.Missing()| == |w.bits|
  {
    OffsetOf(w, b, b - 1);
    ModuloShift(-1, 1);
    assert w.Offset(w.highest) == MODULUS - 1;
    AllMissing(w, |w.bits|);
  }

  /** The gap report lists what the window does not remember, up to the highest number, if and
      only if the base has not been advanced past that; otherwise it lists the whole window. */
  lemma MissingExact(w: WindowState, b: nat, acc: set<nat>, h: nat)
    requires Remembers(w, b, acc) && 0 < |w.bits| <= HALF && acc != {}
    requires w.highest == h % MODULUS && b - 1 <= h < b + |w.bits| && forall m :: m in acc ==> m <= h
    ensures w.Missing() == TrueMissing(b, h, acc) <==> h >= b
    ensures h < b ==> TrueMissing(b, h, acc) == [] && |w.Missing()| == |w.bits|
  {
    if h >= b {
      MissingReached(w, b, acc, h);
    } else {
      MissingPassed(w, b, acc);
    }
  }

  lemma {:induction false} MissingMonotone(b: nat, h: int, acc: set<nat>, all: set<nat>)
    requires acc <= all
    ensures |TrueMissing(b, h, all)| <= |TrueMissing(b, h, acc)|
    decreases h - b
  {
    if h >= b {
      MissingMonotone(b, h - 1, acc, all);
    }
  }

  lemma {:induction false} MissingSame(b: nat, h: int, acc: set<nat>, all: set<nat>)
    requires acc <= all && forall m :: m in all && b <= m <= h ==> m in acc
    ensures TrueMissing(b, h, all) == TrueMissing(b, h, acc)
    decreases h - b
  {
    if h >= b {
      MissingSame(b, h - 1, acc, all);
    }
  }

  lemma {:induction false} MissingDiffers(b: nat, h: int, acc: set<nat>, all: set<nat>, m: nat)
    requires acc <= all && b <= m <= h && m in all && m !in acc
    ensures |TrueMissing(b, h, all)| < |TrueMissing(b, h, acc)|
    decreases h - b
  {
    if m == h {
      MissingMonotone(b, h - 1, acc, all);
    } else {
      MissingDiffers(b, h - 1, acc, all, m);
    }
  }

  /** What is missing of the remembered numbers is what is missing of all accepted ones if and
      only if nothing from the base on has been forgotten. */
  lemma MissingIfWhole(mem: Memory)
    requires mem.acc <= mem.all && mem.all != {}
    ensures TrueMissing(mem.b, Top(mem.all), mem.acc) == TrueMissing(mem.b, Top(mem.all), mem.all) <==> mem.Whole()
  {
    var h := Top(mem.all);
    if m: nat :| m in mem.all && m >= mem.b && m !in mem.acc {
      MissingDiffers(mem.b, h, mem.acc, mem.all, m);
    } else {
      MissingSame(mem.b, h, mem.acc, mem.all);
    }
  }

  lemma ReportsWhole(w: WindowState, mem: Memory)
    requires Knows(w, mem) && mem.all != {}
    ensures w.Missing() == TrueMissing(mem.b, Top(mem.all), mem.acc) <==> Top(mem.all) >= mem.b
    ensures w.Missing() == TrueMissing(mem.b, Top(mem.all), mem.all) <==> Top(mem.all) >= mem.b && mem.Whole()
  {
    MissingExact(w, mem.b, mem.acc, Top(mem.all));
    MissingIfWhole(mem);
    if Top(mem.all) < mem.b {
      assert TrueMissing(mem.b, Top(mem.all), mem.all) == [];
    }
  }

  /** In every state of every run, the gap report is the true list of numbers never accepted, up
      to the highest one, if and only if the base has not passed the highest and nothing from the
      base on has been forgotten; in a run that never forgets, the second is the case. */
  lemma ReportsExactly(size: nat, events: seq<Event>)
    requires 0 < size <= HALF && Start(size).InReach(events) && Start(size).Run(events).1.all != {}
    ensures var (w, mem) := (WindowRun(New(size), events).1, Start(size).Run(events).1);
            && |w.bits| > 0
            && (w.Missing() == TrueMissing(mem.b, Top(mem.all), mem.all) <==> Top(mem.all) >= mem.b && mem.Whole())
            && (Start(size).NeverForgets(events) ==> mem.Whole())
  {
    RunKnows(New(size), Start(size), events);
    ReportsWhole(WindowRun(New(size), events).1, Start(size).Run(events).1);
    if Start(size).NeverForgets(events) {
      RunKeepsAll(Start(size), events);
    }
  }

  /** Right after a jump, from a window that had forgotten nothing, the report is right if and
      only if the jump does not forget. */
  lemma JumpReport(w: WindowState, mem: Memory, n: nat)
    requires Knows(w, mem) && mem.acc == mem.all && mem.Near(Arrive(n)) && mem.Jumps(n)
    ensures var w' := w.Mark(n % MODULUS).0;
            && |w'.bits| > 0
            && (w'.Missing() == TrueMissing(n - mem.size / 2, n, mem.all + {n}) <==> !mem.Forgets(Arrive(n)))
  {
    var mem' := mem.After(Arrive(n));
    EventKnows(w, mem, Arrive(n));
    TopAdded(mem.all, n);
    ReportsWhole(w.Mark(n % MODULUS).0, mem');
    if m :| m in mem.acc && m >= n - mem.size / 2 {
      assert m in mem'.all && m !in mem'.acc;
    }
  }

  /** The numbers 0 to `n` - 1 in order. */
  function InOrder(n: nat): seq<Event> {
    if n == 0 then [] else InOrder(n - 1) + [Arrive(n - 1)]
  }

  function UpTo(n: nat): (s: set<nat>)
    ensures forall m: nat :: m in s <==> m < n
  {
    if n == 0 then {} else UpTo(n - 1) + {n - 1}
  }

  lemma {:induction false} RunAppend(w: WindowState, mem: Memory, events: seq<Event>, e: Event)
    ensures WindowRun(w, events + [e]).1 == Next(WindowRun(w, events).1, e)
    ensures mem.Run(events + [e]).1 == mem.Run(events).1.After(e)
    ensures mem.InReach(events + [e]) <==> mem.InReach(events) && mem.Run(events).1.Near(e)
    decreases |events|
  {
    var all := events + [e];
    if events == [] {
      assert all[1..] == [];
    } else {
      assert all[0] == events[0] && all[1..] == events[1..] + [e];
      RunAppend(Next(w, events[0]), mem.After(events[0]), events[1..], e);
    }
  }

  lemma {:induction false} InOrderFills(size: nat, n: nat)
    requires n <= size <= HALF && 0 < size
    ensures Start(size).InReach(InOrder(n))
    ensures Start(size).Run(InOrder(n)).1 == Memory(size, 0, UpTo(n), UpTo(n))
  {
    if n > 0 {
      InOrderFills(size, n - 1);
      RunAppend(New(size), Start(size), InOrder(n - 1), Arrive(n - 1));
      assert UpTo(n - 1) + {n - 1} == UpTo(n);
    }
  }

  lemma InOrderKnown(size: nat)
    requires 0 < size <= HALF
    ensures Knows(WindowRun(New(size), InOrder(size)).1, Memory(size, 0, UpTo(size), UpTo(size)))
  {
    InOrderFills(size, size);
    RunKnows(New(size), Start(size), InOrder(size));
  }

  lemma OneBeyond(size: nat)
    ensures WindowRun(New(size), InOrder(size + 1)).1 == WindowRun(New(size), InOrder(size)).1.Mark(size % MODULUS).0
  {
    RunAppend(New(size), Start(size), InOrder(size), Arrive(size));
  }

  lemma {:induction false} MissingMember(b: nat, h: int, acc: set<nat>, m: nat)
    requires b <= m <= h && m !in acc
    ensures m % MODULUS in TrueMissing(b, h, acc)
    decreases h - b
  {
    if m < h {
      MissingMember(b, h - 1, acc, m);
    }
  }

  lemma JumpReportsForgotten(w: WindowState, mem: Memory, n: nat, m: nat)
    requires Knows(w, mem) && mem.Near(Arrive(n)) && mem.Jumps(n) && n - mem.size / 2 <= m < n
    ensures |w.Mark(n % MODULUS).0.bits| > 0 && m % MODULUS in w.Mark(n % MODULUS).0.Missing()
  {
    EventKnows(w, mem, Arrive(n));
    TopAdded(mem.all, n);
    ReportsWhole(w.Mark(n % MODULUS).0, mem.After(Arrive(n)));
    MissingMember(n - mem.size / 2, n, mem.After(Arrive(n)).acc, m);
  }

  /** Plain traffic in order, one number more than the window has places: nothing is missing, and
      the second half of the window is reported. */
  lemma InOrderMisreported(size: nat, m: nat)
    requires 1 < size < HALF && size - size / 2 <= m < size
    ensures var w := WindowRun(New(size), InOrder(size + 1)).1;
            |w.bits| > 0 && m % MODULUS in w.Missing() && TrueMissing(size - size / 2, size, UpTo(size + 1)) == []
  {
    InOrderKnown(size);
    OneBeyond(size);
    JumpReportsForgotten(WindowRun(New(size), InOrder(size)).1, Memory(size, 0, UpTo(size), UpTo(size)), size, m);
    NoneMissing(size - size / 2, size, UpTo(size + 1));
  }

  lemma {:induction false} NoneMissing(b: nat, h: int, acc: set<nat>)
    requires forall m: nat :: b <= m <= h ==> m in acc
    ensures TrueMissing(b, h, acc) == []
    decreases h - b
  {
    if h >= b {
      NoneMissing(b, h - 1, acc);
    }
  }

  lemma {:induction false} AllMissing(w: WindowState, n: nat)
    requires n <= |w.bits| && forall o :: 0 <= o < n ==> !w.bits[o]
    ensures |w.MissingBelow(n)| == n
  {
    if n > 0 {
      AllMissing(w, n - 1);
    }
  }

  // ----- the window object -----

  class RecvWindow {
    const received: array<bool>
    var baseSeq: u24
    var highestSeq: u32
    var totalReceived: nat
    var totalDuplicates: nat
    var totalOutOfOrder: nat

    ghost function State(): WindowState
      reads this, received
    {
      WindowState(received[..], baseSeq, highestSeq, totalReceived, totalDuplicates, totalOutOfOrder)
    }

    constructor (maxSize: nat)
      ensures fresh(received) && received.Length == maxSize
      ensures State() == New(maxSize)
    {
      received := new bool[maxSize](_ => false);
      baseSeq, highestSeq := 0, 0;
      totalReceived, totalDuplicates, totalOutOfOrder := 0, 0, 0;
      new;
      assert received[..] == Clear(maxSize);
    }

    /** Clears the places from `start` on. */
    method FillFalse(start: nat)
      requires start <= received.Length
      modifies received
      ensures received[..] == old(received[..])[..start] + Clear(received.Length - start)
    {
      for i := start to received.Length
        invariant forall k :: 0 <= k < received.Length ==>
                    received[k] == if start <= k < i then false else old(received[k])
      {
        received[i] := false;
      }
    }

    /** Moves the places from `shift` on to the front. */
    method CopyDown(shift: nat)
      requires shift <= received.Length
      modifies received
      ensures received[..received.Length - shift] == old(received[shift..])
    {
      for i := 0 to received.Length - shift
        invariant forall k :: 0 <= k < received.Length ==>
                    received[k] == if k < i then old(received[k + shift]) else old(received[k])
      {
        received[i] := received[i + shift];
      }
    }

    method SlideTo(x: u32)
      modifies this, received
      ensures State() == old(State()).SlideTo(x)
    {
      var shift := Mask24(WrappingSub(x, baseSeq));
      if shift == 0 {
        return;
      }
      if shift >= received.Length {
        FillFalse(0);
        baseSeq := Mask24(WrappingSub(x, AsU32(received.Length / 2)));
      } else {
        CopyDown(shift);
        FillFalse(received.Length - shift);
        baseSeq := Mask24(WrappingAdd(baseSeq, shift));
      }
    }

    method MarkReceived(x: u32) returns (isNew: Option<bool>)
      modifies this, received
      ensures (State(), isNew) == old(State()).Mark(x)
    {
      if SeqLessThan(x, baseSeq) && totalReceived > 0 {
        return None;
      }
      var offset := Mask24(WrappingSub(x, baseSeq));
      if offset >= received.Length {
        SlideTo(x);
        var newOffset := Mask24(WrappingSub(x, baseSeq));
        if newOffset >= received.Length {
          return None;
        }
        received[newOffset] := true;
        totalReceived := totalReceived + 1;
        if SeqLessThan(highestSeq, x) {
          highestSeq := x;
        }
        return Some(true);
      }
      if received[offset] {
        totalDuplicates := totalDuplicates + 1;
        return Some(false);
      }
      received[offset] := true;
      totalReceived := totalReceived + 1;
      if x != WrappingAdd(highestSeq, 1) && totalReceived > 1 {
        totalOutOfOrder := totalOutOfOrder + 1;
      }
      if SeqLessThan(highestSeq, x) || totalReceived == 1 {
        highestSeq := x;
      }
      return Some(true);
    }

    method HasReceived(x: u32) returns (r: bool)
      ensures r == State().HasReceived(x)
    {
      if SeqLessThan(x, baseSeq) {
        return false;
      }
      var offset := Mask24(WrappingSub(x, baseSeq));
      if offset >= received.Length {
        return false;
      }
      return received[offset];
    }

    method GetMissing() returns (missing: seq<u24>)
      requires received.Length > 0
      ensures missing == State().Missing()
    {
      missing := [];
      if highestSeq == baseSeq && totalReceived == 0 {
        return;
      }
      var endOffset: int := Mask24(WrappingSub(highestSeq, baseSeq));
      if endOffset > received.Length - 1 {
        endOffset := received.Length - 1;
      }
      for offset := 0 to endOffset + 1
        invariant missing == State().MissingBelow(offset)
      {
        if !received[offset] {
          missing := missing + [Mask24(WrappingAdd(baseSeq, AsU32(offset)))];
        }
      }
    }

    method AdvanceBase()
      modifies this, received
      ensures State() == old(State()).Advance()
    {
      var shift := 0;
      while shift < received.Length && received[shift]
        invariant shift <= received.Length && forall o :: 0 <= o < shift ==> received[o]
      {
        shift := shift + 1;
      }
      LeadingOnesIs(received[..], shift);
      if shift > 0 {
        SlideTo(WrappingAdd(baseSeq, AsU32(shift)));
      }
    }
  }

  lemma {:induction false} LeadingOnesIs(s: seq<bool>, n: nat)
    requires n <= |s| && (forall i :: 0 <= i < n ==> s[i]) && (n < |s| ==> !s[n])
    ensures LeadingOnes(s) == n
  {
    if s != [] && s[0] {
      LeadingOnesIs(s[1..], n - 1);
    }
  }
}
