/**
 The list of acknowledged sequence numbers, compressed into ranges. `AckRangeList.Insert`
 edits the list in place; `Inserted` says what it computes, and the lemmas say what that
 means: the list is the one shortest, sorted description of the set of numbers inserted.
 */
module AckRanges {
  import opened Wrappers
  import opened Bytes
  import opened Uint24

  datatype AckRange = Single(number: u24) | Range(start: u24, end: u24) {

    function Lo(): u24 {
      if Single? then number else start
    }

    function Hi(): u24 {
      if Single? then number else end
    }

    predicate Contains(x: u32) {
      match this
      case Single(s) => s == x
      case Range(start, end) => SeqInRange(x, start, end)
    }

    /** The program's `count`, in 32-bit arithmetic. */
    function Count(): u32 {
      match this
      case Single(_) => 1
      case Range(start, end) => WrappingAdd(WrappingSub(end, start), 1)
    }

    function EncodedSize(): nat {
      if Single? then 4 else 7
    }
  }

  /** Some range of the list contains the number. */
  ghost predicate Covers(rs: seq<AckRange>, x: u32) {
    exists i :: 0 <= i < |rs| && rs[i].Contains(x)
  }

  /** Both lists describe the same set of numbers. */
  ghost predicate SameNumbers(rs: seq<AckRange>, ts: seq<AckRange>) {
    forall x: u24 :: Covers(rs, x) <==> Covers(ts, x)
  }

  ghost predicate NonWrapping(rs: seq<AckRange>) {
    forall i :: 0 <= i < |rs| ==> rs[i].Lo() <= rs[i].Hi()
  }

  /** Proper ranges, sorted, pairwise disjoint, with at least one number between neighbours. */
  ghost predicate Canonical(rs: seq<AckRange>) {
    && (forall i :: 0 <= i < |rs| && rs[i].Range? ==> rs[i].start < rs[i].end)
    && (forall i, j :: 0 <= i < j < |rs| ==> rs[i].Hi() + 1 < rs[j].Lo())
  }

  /** The list after inserting one number, by recursion from the front. */
  function Inserted(rs: seq<AckRange>, x: u24): seq<AckRange> {
    if rs == [] then [Single(x)]
    else if x + 1 < rs[0].Lo() then [Single(x)] + rs
    else if x + 1 == rs[0].Lo() then [Range(x, rs[0].Hi())] + rs[1..]
    else if x <= rs[0].Hi() then rs
    else if x == rs[0].Hi() + 1 then
      if |rs| > 1 && rs[1].Lo() == x + 1 then [Range(rs[0].Lo(), rs[1].Hi())] + rs[2..]
      else [Range(rs[0].Lo(), x)] + rs[1..]
    else [rs[0]] + Inserted(rs[1..], x)
  }

  /** The list after inserting numbers one after another. */
  function InsertedAll(rs: seq<AckRange>, xs: seq<u24>): seq<AckRange>
    decreases |xs|
  {
    if xs == [] then rs else InsertedAll(Inserted(rs, xs[0]), xs[1..])
  }

  // ----- what one insertion does -----

  lemma CoversConcat(rs: seq<AckRange>, ts: seq<AckRange>, x: u32)
    ensures Covers(rs + ts, x) <==> Covers(rs, x) || Covers(ts, x)
  {
    if Covers(rs, x) {
      var i :| 0 <= i < |rs| && rs[i].Contains(x);
      assert (rs + ts)[i] == rs[i];
    }
    if Covers(ts, x) {
      var i :| 0 <= i < |ts| && ts[i].Contains(x);
      assert (rs + ts)[|rs| + i] == ts[i];
    }
  }

  lemma CoversCons(r: AckRange, ts: seq<AckRange>, x: u32)
    ensures Covers([r] + ts, x) <==> r.Contains(x) || Covers(ts, x)
  {
    CoversConcat([r], ts, x);
    assert Covers([r], x) <==> r.Contains(x) by {
      if r.Contains(x) { assert [r][0].Contains(x); }
    }
  }

  lemma CoversHead(rs: seq<AckRange>, x: u32)
    requires rs != []
    ensures Covers(rs, x) <==> rs[0].Contains(x) || Covers(rs[1..], x)
  {
    assert rs == [rs[0]] + rs[1..];
    CoversCons(rs[0], rs[1..], x);
  }

  lemma CanonicalCons(r: AckRange, ts: seq<AckRange>)
    requires Canonical(ts)
    requires r.Range? ==> r.start < r.end
    requires ts != [] ==> r.Hi() + 1 < ts[0].Lo()
    ensures Canonical([r] + ts)
  {
    var rs := [r] + ts;
    forall i, j | 0 <= i < j < |rs| ensures rs[i].Hi() + 1 < rs[j].Lo() {
      if i == 0 {
        if j > 1 { assert ts[0].Hi() + 1 < ts[j - 1].Lo(); }
      } else {
        assert ts[i - 1].Hi() + 1 < ts[j - 1].Lo();
      }
    }
  }

  lemma CanonicalTail(rs: seq<AckRange>, k: nat)
    requires Canonical(rs) && k <= |rs|
    ensures Canonical(rs[k..])
  {
    var ts := rs[k..];
    forall i, j | 0 <= i < j < |ts| ensures ts[i].Hi() + 1 < ts[j].Lo() {
      assert ts[i] == rs[k + i] && ts[j] == rs[k + j];
    }
  }

  /** One insertion keeps the list canonical and its lower end where it should be. */
  lemma {:induction false} InsertedIsCanonical(rs: seq<AckRange>, x: u24)
    requires Canonical(rs)
    ensures Canonical(Inserted(rs, x))
    ensures Inserted(rs, x) != []
    ensures Inserted(rs, x)[0].Lo() == if rs == [] || x < rs[0].Lo() then x else rs[0].Lo()
  {
    if rs == [] {
    } else {
      CanonicalTail(rs, 1);
      if x + 1 < rs[0].Lo() {
        CanonicalCons(Single(x), rs);
      } else if x + 1 == rs[0].Lo() {
        CanonicalCons(Range(x, rs[0].Hi()), rs[1..]);
      } else if x <= rs[0].Hi() {
      } else if x == rs[0].Hi() + 1 {
        if |rs| > 1 && rs[1].Lo() == x + 1 {
          CanonicalTail(rs, 2);
          CanonicalCons(Range(rs[0].Lo(), rs[1].Hi()), rs[2..]);
        } else {
          CanonicalCons(Range(rs[0].Lo(), x), rs[1..]);
        }
      } else {
        InsertedIsCanonical(rs[1..], x);
        CanonicalCons(rs[0], Inserted(rs[1..], x));
      }
    }
  }

  /** One insertion adds exactly the one number. */
  lemma {:induction false} InsertedCovers(rs: seq<AckRange>, x: u24, y: u24)
    requires Canonical(rs)
    ensures Covers(Inserted(rs, x), y) <==> Covers(rs, y) || y == x
  {
    if rs == [] {
      CoversCons(Single(x), [], y);
      assert [Single(x)] == [Single(x)] + [];
    } else {
      CoversHead(rs, y);
      CanonicalTail(rs, 1);
      if x + 1 < rs[0].Lo() {
        CoversCons(Single(x), rs, y);
      } else if x + 1 == rs[0].Lo() {
        CoversCons(Range(x, rs[0].Hi()), rs[1..], y);
      } else if x <= rs[0].Hi() {
      } else if x == rs[0].Hi() + 1 {
        if |rs| > 1 && rs[1].Lo() == x + 1 {
          CoversHead(rs[1..], y);
          assert rs[1..][1..] == rs[2..];
          CoversCons(Range(rs[0].Lo(), rs[1].Hi()), rs[2..], y);
        } else {
          CoversCons(Range(rs[0].Lo(), x), rs[1..], y);
        }
      } else {
        InsertedCovers(rs[1..], x, y);
        CoversCons(rs[0], Inserted(rs[1..], x), y);
      }
    }
  }

  /** Over any run of insertions the list stays canonical and denotes exactly the old
      numbers and the inserted ones. */
  lemma {:induction false} InsertedAllDenotes(rs: seq<AckRange>, xs: seq<u24>)
    requires Canonical(rs)
    ensures Canonical(InsertedAll(rs, xs))
    ensures forall y: u24 :: Covers(InsertedAll(rs, xs), y) <==> Covers(rs, y) || y in xs
    decreases |xs|
  {
    if xs == [] {
    } else {
      InsertedIsCorrect(rs, xs[0]);
      InsertedAllDenotes(Inserted(rs, xs[0]), xs[1..]);
      forall y: u24 ensures Covers(InsertedAll(rs, xs), y) <==> Covers(rs, y) || y in xs {
        assert y in xs <==> y == xs[0] || y in xs[1..];
      }
    }
  }

  lemma InsertedIsCorrect(rs: seq<AckRange>, x: u24)
    requires Canonical(rs)
    ensures Canonical(Inserted(rs, x))
    ensures forall y: u24 :: Covers(Inserted(rs, x), y) <==> Covers(rs, y) || y == x
  {
    InsertedIsCanonical(rs, x);
    forall y: u24 ensures Covers(Inserted(rs, x), y) <==> Covers(rs, y) || y == x {
      InsertedCovers(rs, x, y);
    }
  }

  // ----- the canonical form is unique and shortest -----

  /** Membership in a canonical list is membership in the head or beyond its gap. */
  lemma CanonicalGap(rs: seq<AckRange>, x: u24)
    requires Canonical(rs) && rs != []
    ensures Covers(rs, x) ==> rs[0].Lo() <= x
    ensures rs[0].Contains(x) <==> rs[0].Lo() <= x <= rs[0].Hi()
    ensures x <= rs[0].Hi() + 1 ==> (Covers(rs, x) <==> rs[0].Contains(x))
    ensures Covers(rs[1..], x) <==> Covers(rs, x) && x > rs[0].Hi()
  {
    CoversHead(rs, x);
    if Covers(rs[1..], x) {
      var i :| 0 <= i < |rs[1..]| && rs[1..][i].Contains(x);
      assert rs[0].Hi() + 1 < rs[i + 1].Lo();
    }
  }

  lemma SameHead(rs: seq<AckRange>, ts: seq<AckRange>)
    requires Canonical(rs) && Canonical(ts) && SameNumbers(rs, ts)
    requires rs != [] && ts != []
    ensures rs[0] == ts[0]
  {
    CanonicalGap(rs, rs[0].Lo());
    CanonicalGap(ts, rs[0].Lo());
    CanonicalGap(rs, ts[0].Lo());
    CanonicalGap(ts, ts[0].Lo());
    assert rs[0].Lo() == ts[0].Lo();
    CanonicalGap(rs, rs[0].Hi());
    CanonicalGap(ts, ts[0].Hi());
    if rs[0].Hi() < ts[0].Hi() {
      CanonicalGap(rs, rs[0].Hi() + 1);
      CanonicalGap(ts, rs[0].Hi() + 1);
    }
    if ts[0].Hi() < rs[0].Hi() {
      CanonicalGap(rs, ts[0].Hi() + 1);
      CanonicalGap(ts, ts[0].Hi() + 1);
    }
  }

  /** A set of numbers has at most one canonical list. */
  lemma {:induction false} CanonicalUnique(rs: seq<AckRange>, ts: seq<AckRange>)
    requires Canonical(rs) && Canonical(ts) && SameNumbers(rs, ts)
    ensures rs == ts
  {
    if rs != [] {
      CanonicalGap(rs, rs[0].Lo());
    }
    if ts != [] {
      CanonicalGap(ts, ts[0].Lo());
    }
    if rs != [] && ts != [] {
      SameHead(rs, ts);
      CanonicalTail(rs, 1);
      CanonicalTail(ts, 1);
      forall x: u24 ensures Covers(rs[1..], x) <==> Covers(ts[1..], x) {
        CanonicalGap(rs, x);
        CanonicalGap(ts, x);
      }
      CanonicalUnique(rs[1..], ts[1..]);
      assert rs == [rs[0]] + rs[1..] && ts == [ts[0]] + ts[1..];
    }
  }

  /** The result depends neither on the order nor on repeats of the insertions. */
  lemma InsertionOrderIrrelevant(xs: seq<u24>, ys: seq<u24>)
    ensures InsertedAll([], xs) == InsertedAll([], ys) <==> forall x: u24 :: x in xs <==> x in ys
  {
    InsertedAllDenotes([], xs);
    InsertedAllDenotes([], ys);
    if forall x: u24 :: x in xs <==> x in ys {
      CanonicalUnique(InsertedAll([], xs), InsertedAll([], ys));
    } else {
      var x: u24 :| !(x in xs <==> x in ys);
      assert Covers(InsertedAll([], xs), x) != Covers(InsertedAll([], ys), x);
    }
  }

  /** Which range of `ts` contains the lower end of range `i` of `rs`. */
  ghost function Holder(rs: seq<AckRange>, ts: seq<AckRange>, i: nat): (h: nat)
    requires Canonical(rs) && SameNumbers(rs, ts) && i < |rs|
    ensures h < |ts| && ts[h].Contains(rs[i].Lo())
  {
    assert rs[i].Contains(rs[i].Lo());
    assert Covers(ts, rs[i].Lo());
    var h :| 0 <= h < |ts| && ts[h].Contains(rs[i].Lo());
    h
  }

  /** The number before a range of a canonical list is in no range of it. */
  lemma BelowRangeUncovered(rs: seq<AckRange>, j: nat)
    requires Canonical(rs) && j < |rs| && rs[j].Lo() > 0
    ensures !Covers(rs, rs[j].Lo() - 1)
  {
    forall i | 0 <= i < |rs| ensures !rs[i].Contains(rs[j].Lo() - 1) {
      if i < j {
        assert rs[i].Hi() + 1 < rs[j].Lo();
      } else if j < i {
        assert rs[j].Hi() + 1 < rs[i].Lo();
      }
    }
  }

  lemma HoldersDistinct(rs: seq<AckRange>, ts: seq<AckRange>, i: nat, j: nat)
    requires Canonical(rs) && NonWrapping(ts) && SameNumbers(rs, ts)
    requires i < j < |rs|
    ensures Holder(rs, ts, i) != Holder(rs, ts, j)
  {
    var h := Holder(rs, ts, i);
    assert rs[i].Hi() + 1 < rs[j].Lo();
    if h == Holder(rs, ts, j) {
      // the interval then also holds the uncovered number just below range j
      assert ts[h].Contains(rs[j].Lo() - 1);
      assert Covers(ts, rs[j].Lo() - 1);
      BelowRangeUncovered(rs, j);
    }
  }

  lemma {:induction false} DistinctBelow(s: seq<nat>, n: nat)
    requires forall i :: 0 <= i < |s| ==> s[i] < n
    requires forall i, j :: 0 <= i < j < |s| ==> s[i] != s[j]
    ensures |s| <= n
  {
    if s == [] {
    } else if i :| 0 <= i < |s| && s[i] == n - 1 {
      var t := s[..i] + s[i + 1..];
      forall k | 0 <= k < |t| ensures t[k] < n - 1 {
        assert t[k] == if k < i then s[k] else s[k + 1];
      }
      DistinctBelow(t, n - 1);
    } else {
      assert s[0] < n;
      DistinctBelow(s, n - 1);
    }
  }

  /** No list of non-wrapping intervals with the same numbers is shorter. */
  lemma CanonicalShortest(rs: seq<AckRange>, ts: seq<AckRange>)
    requires Canonical(rs) && NonWrapping(ts) && SameNumbers(rs, ts)
    ensures |rs| <= |ts|
  {
    var s := seq(|rs|, i requires 0 <= i < |rs| => Holder(rs, ts, i));
    forall i, j | 0 <= i < j < |s| ensures s[i] != s[j] {
      HoldersDistinct(rs, ts, i, j);
    }
    DistinctBelow(s, |ts|);
  }

  // ----- counting -----

  ghost predicate Between(lo: int, x: int, hi: int) {
    lo <= x <= hi
  }

  ghost function Interval(lo: int, hi: int): set<int> {
    set x | lo <= x <= hi && Between(lo, x, hi)
  }

  lemma {:induction false} IntervalSize(lo: int, hi: int)
    requires lo <= hi + 1
    ensures |Interval(lo, hi)| == hi - lo + 1
    decreases hi - lo
  {
    if lo > hi {
      assert Interval(lo, hi) == {};
    } else {
      IntervalSize(lo, hi - 1);
      assert forall x :: Between(lo, x, hi) <==> Between(lo, x, hi - 1) || x == hi;
      assert Interval(lo, hi) == Interval(lo, hi - 1) + {hi};
    }
  }

  ghost function Numbers(r: AckRange): set<int> {
    set x | 0 <= x < 0x100_0000 && r.Contains(x)
  }

  /** `count` is the number of members exactly when the range does not wrap. */
  lemma CountIsSize(r: AckRange)
    ensures r.Count() == |Numbers(r)| <==> r.Lo() <= r.Hi()
  {
    if r.Lo() <= r.Hi() {
      assert Numbers(r) == Interval(r.Lo(), r.Hi());
      IntervalSize(r.Lo(), r.Hi());
    } else {
      assert Numbers(r) == Interval(r.Lo(), MODULUS - 1) + Interval(0, r.Hi());
      assert Interval(r.Lo(), MODULUS - 1) !! Interval(0, r.Hi());
      IntervalSize(r.Lo(), MODULUS - 1);
      IntervalSize(0, r.Hi());
    }
  }

  // ----- the list object -----

  /** Insertion passes over ranges that end well below the number. */
  lemma {:induction false} InsertedSkips(rs: seq<AckRange>, k: nat, x: u24)
    requires k <= |rs|
    requires forall i :: 0 <= i < k ==> rs[i].Lo() <= rs[i].Hi() && rs[i].Hi() + 1 < x
    ensures Inserted(rs, x) == rs[..k] + Inserted(rs[k..], x)
  {
    if k == 0 {
      assert rs[0..] == rs;
    } else {
      var tail := rs[1..];
      InsertedSkips(tail, k - 1, x);
      assert tail[k - 1..] == rs[k..];
      assert rs[..k] == [rs[0]] + tail[..k - 1];
      assert Inserted(rs, x) == [rs[0]] + Inserted(tail, x);
    }
  }

  /** Range `idx` does not wrap and does not touch its successor. */
  ghost predicate Separate(rs: seq<AckRange>, idx: nat)
    requires idx < |rs|
  {
    && rs[idx].Lo() <= rs[idx].Hi()
    && (idx + 1 < |rs| ==> rs[idx].Hi() + 1 < rs[idx + 1].Lo())
  }

  predicate IsPosition(rs: seq<AckRange>, pos: nat, x: u24) {
    && pos <= |rs|
    && (pos < |rs| ==> rs[pos].Contains(x) || rs[pos].Lo() > x)
    && (forall i :: 0 <= i < pos ==> !rs[i].Contains(x) && rs[i].Lo() <= x)
  }

  predicate FollowsPrevious(rs: seq<AckRange>, pos: nat, x: u24)
    requires pos <= |rs|
  {
    pos > 0 && rs[pos - 1].Hi() + 1 == x
  }

  /** A range grown by a number adjacent to it. */
  function Grown(r: AckRange, x: u24): Option<AckRange> {
    if r.Hi() + 1 == x then Some(Range(r.Lo(), x))
    else if x + 1 == r.Lo() then Some(Range(x, r.Hi()))
    else None
  }

  /** Range `idx` grown by `x` and joined with its successor if they meet; nothing changes if
      `x` is not adjacent. */
  function Merged(rs: seq<AckRange>, idx: nat, x: u24): seq<AckRange>
    requires idx < |rs|
  {
    match Grown(rs[idx], x)
    case None => rs
    case Some(g) =>
      if idx + 1 < |rs| && g.Hi() + 1 == rs[idx + 1].Lo() then
        rs[..idx] + [Range(g.Lo(), rs[idx + 1].Hi())] + rs[idx + 2..]
      else
        rs[..idx] + [g] + rs[idx + 1..]
  }

  lemma MergedIsInserted(rs: seq<AckRange>, idx: nat, x: u24)
    requires idx < |rs| && Separate(rs, idx)
    requires rs[idx].Hi() + 1 == x || x + 1 == rs[idx].Lo()
    ensures Merged(rs, idx, x) == rs[..idx] + Inserted(rs[idx..], x)
  {
    var tail := rs[idx..];
    assert tail[0] == rs[idx] && rs[idx + 1..] == tail[1..];
    if idx + 1 < |rs| {
      assert tail[1] == rs[idx + 1] && rs[idx + 2..] == tail[2..];
    }
  }

  /** What the position found by `Insert` says about the resulting list `target`. */
  ghost predicate Plan(rs: seq<AckRange>, pos: nat, x: u24, target: seq<AckRange>)
    requires pos <= |rs|
  {
    if pos < |rs| && rs[pos].Contains(x) then
      target == rs
    else if FollowsPrevious(rs, pos, x) then
      target == Merged(rs, pos - 1, x)
    else if pos < |rs| && x + 1 == rs[pos].Lo() then
      target == Merged(rs, pos, x)
    else
      target == rs[..pos] + [Single(x)] + rs[pos..]
  }

  /** Insertion at a range that holds the number, or before one that starts above it. */
  lemma InsertedAtFront(rs: seq<AckRange>, pos: nat, x: u24)
    requires pos <= |rs|
    ensures pos < |rs| && rs[pos].Lo() <= x <= rs[pos].Hi() ==> Inserted(rs[pos..], x) == rs[pos..]
    ensures pos == |rs| || x + 1 < rs[pos].Lo() ==> Inserted(rs[pos..], x) == [Single(x)] + rs[pos..]
  {
    if pos < |rs| {
      assert rs[pos..][0] == rs[pos];
    }
  }

  lemma RangesBefore(rs: seq<AckRange>, pos: nat, x: u24)
    requires Canonical(rs) && IsPosition(rs, pos, x)
    ensures forall i :: 0 <= i < pos && i < |rs| ==> rs[i].Lo() <= rs[i].Hi() < x
    ensures forall i :: 0 <= i < pos - 1 ==> rs[i].Hi() + 1 < x
    ensures pos < |rs| && rs[pos].Contains(x) ==> !FollowsPrevious(rs, pos, x)
  {
    forall i | 0 <= i < pos - 1 ensures rs[i].Hi() + 1 < x {
      assert rs[i].Hi() + 1 < rs[pos - 1].Lo();
    }
  }

  lemma PositionPlan(rs: seq<AckRange>, pos: nat, x: u24)
    requires Canonical(rs) && IsPosition(rs, pos, x)
    ensures Plan(rs, pos, x, Inserted(rs, x))
  {
    RangesBefore(rs, pos, x);
    if FollowsPrevious(rs, pos, x) {
      InsertedSkips(rs, pos - 1, x);
      MergedIsInserted(rs, pos - 1, x);
    } else {
      InsertedSkips(rs, pos, x);
      PlanWithoutPrevious(rs, pos, x);
    }
  }

  lemma PlanWithoutPrevious(rs: seq<AckRange>, pos: nat, x: u24)
    requires pos <= |rs| && (pos < |rs| ==> Separate(rs, pos))
    requires pos < |rs| ==> rs[pos].Contains(x) || rs[pos].Lo() > x
    requires !FollowsPrevious(rs, pos, x)
    requires Inserted(rs, x) == rs[..pos] + Inserted(rs[pos..], x)
    ensures Plan(rs, pos, x, Inserted(rs, x))
  {
    assert rs == rs[..pos] + rs[pos..];
    InsertedAtFront(rs, pos, x);
    if pos < |rs| && x + 1 == rs[pos].Lo() {
      MergedIsInserted(rs, pos, x);
    }
  }

  class AckRangeList {
    var ranges: seq<AckRange>

    ghost predicate Valid()
      reads this
    {
      Canonical(ranges)
    }

    constructor ()
      ensures Valid() && ranges == []
    {
      ranges := [];
    }

    /** The first position whose range contains the number or starts above it. */
    method Position(x: u24) returns (pos: nat)
      ensures IsPosition(ranges, pos, x)
    {
      pos := 0;
      while pos < |ranges|
        invariant pos <= |ranges|
        invariant forall i :: 0 <= i < pos ==> !ranges[i].Contains(x) && ranges[i].Lo() <= x
      {
        if ranges[pos].Contains(x) || ranges[pos].Lo() > x {
          return;
        }
        pos := pos + 1;
      }
    }

    predicate CanMergeWithNext(idx: nat, x: u24)
      requires idx < |ranges|
      reads this
    {
      WrappingAdd(ranges[idx].Hi(), 1) == x
    }

    predicate CanMergeWithPrev(idx: nat, x: u24)
      requires idx < |ranges|
      reads this
    {
      WrappingAdd(x, 1) == ranges[idx].Lo()
    }

    /** Does nothing if the number touches neither end of the range. */
    method MergeAt(idx: nat, x: u24)
      requires idx < |ranges|
      modifies this
      ensures ranges == Merged(old(ranges), idx, x)
    {
      var start, end := ranges[idx].Lo(), ranges[idx].Hi();
      if WrappingAdd(end, 1) == x {
        end := x;
      } else if WrappingAdd(x, 1) == start {
        start := x;
      } else {
        return;
      }
      ranges := ranges[idx := Range(start, end)];
      if idx + 1 < |ranges| && WrappingAdd(end, 1) == ranges[idx + 1].Lo() {
        end := ranges[idx + 1].Hi();
        ranges := ranges[idx := Range(start, end)];
        ranges := ranges[..idx + 1] + ranges[idx + 2..];
      }
    }

    method InsertBefore(pos: nat, x: u24, ghost target: seq<AckRange>)
      requires pos < |ranges| && Plan(ranges, pos, x, target)
      modifies this
      ensures ranges == target
    {
      if ranges[pos].Contains(x) {
        // already in range
      } else if pos > 0 && CanMergeWithNext(pos - 1, x) {
        MergeAt(pos - 1, x);
      } else if CanMergeWithPrev(pos, x) {
        MergeAt(pos, x);
      } else {
        ranges := ranges[..pos] + [Single(x)] + ranges[pos..];
      }
    }

    method InsertLast(x: u24, ghost target: seq<AckRange>)
      requires Plan(ranges, |ranges|, x, target)
      modifies this
      ensures ranges == target
    {
      if ranges != [] && CanMergeWithNext(|ranges| - 1, x) {
        MergeAt(|ranges| - 1, x);
      } else {
        assert ranges[..|ranges|] + [Single(x)] + ranges[|ranges|..] == ranges + [Single(x)];
        ranges := ranges + [Single(x)];
      }
    }

    /** Inserts one number in place. */
    method Insert(x: u24)
      requires Valid()
      modifies this
      ensures Valid()
      ensures forall y: u24 :: Covers(ranges, y) <==> Covers(old(ranges), y) || y == x
      ensures ranges == Inserted(old(ranges), x)
    {
      var pos := Position(x);
      PositionPlan(ranges, pos, x);
      InsertedIsCorrect(ranges, x);
      ghost var target := Inserted(ranges, x);
      if pos < |ranges| {
        InsertBefore(pos, x, target);
      } else {
        InsertLast(x, target);
      }
    }
  }
}
