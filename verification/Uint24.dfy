/** 24-bit sequence numbers: wrap-around arithmetic, circular comparison and the byte codec. */
module Uint24 {
  import opened Bytes

  const MODULUS := 0x100_0000
  const HALF := 0x80_0000

  type u24 = x: int | 0 <= x < 0x100_0000

  /** Subtraction of 32-bit words, wrapping below zero. */
  function WrappingSub(a: u32, b: u32): u32 {
    (a - b) % 0x1_0000_0000
  }

  /** Addition of 32-bit words, wrapping above the largest. */
  function WrappingAdd(a: u32, b: u32): u32 {
    (a + b) % 0x1_0000_0000
  }

  /** The mask with 0x00FFFFFF. */
  function Mask24(x: u32): u24 {
    x % MODULUS
  }

  /** A 32-bit word reread as a two's complement number. */
  function AsI32(x: u32): int {
    if x >= 0x8000_0000 then x - 0x1_0000_0000 else x
  }

  predicate SeqLessThan(a: u32, b: u32) {
    var diff := Mask24(WrappingSub(a, b));
    // bit 23 set: the eight upper bits, all clear in diff, are set
    var signed := if diff / HALF % 2 != 0 then AsI32(0xFF00_0000 + diff) else AsI32(diff);
    signed < 0
  }

  predicate SeqInRange(x: u32, start: u32, end: u32) {
    if start <= end then start <= x <= end else start <= x || x <= end
  }

  /** The 32-bit detour of the masked difference is invisible modulo 2^24. */
  lemma MaskedDifference(a: u32, b: u32)
    ensures Mask24(WrappingSub(a, b)) == (a - b) % MODULUS
  {
    var q := (a - b) / 0x1_0000_0000;
    assert WrappingSub(a, b) == (a - b) - q * 0x1_0000_0000;
    assert WrappingSub(a, b) == (a - b) - (q * 0x100) * MODULUS;
    ModuloShift(a - b, -q * 0x100);
  }

  lemma ModuloShift(x: int, k: int)
    ensures (x + k * MODULUS) % MODULUS == x % MODULUS
  {
    var q := x / MODULUS;
    assert x + k * MODULUS == (q + k) * MODULUS + x % MODULUS;
  }

  /** Residues determine the residue of a difference. */
  lemma DifferenceOfResidues(j: int, k: int)
    ensures (j % MODULUS - k % MODULUS) % MODULUS == (j - k) % MODULUS
  {
    var p, q := j / MODULUS, k / MODULUS;
    assert j - k == (j % MODULUS - k % MODULUS) + (p - q) * MODULUS;
    ModuloShift(j % MODULUS - k % MODULUS, p - q);
  }

  /** The comparison, on true numbers, is decided by their distance modulo 2^24 alone. */
  lemma SeqLessThanByDistance(j: int, k: int)
    ensures SeqLessThan(j % MODULUS, k % MODULUS) <==> (j - k) % MODULUS >= HALF
  {
    MaskedDifference(j % MODULUS, k % MODULUS);
    DifferenceOfResidues(j, k);
  }

  /** Within half the number space, the comparison of residues is the comparison of the true
      numbers, except that at distance exactly HALF it says "less" in both directions. */
  lemma SeqLessThanAgrees(j: int, k: int)
    requires -HALF <= j - k <= HALF
    ensures SeqLessThan(j % MODULUS, k % MODULUS) <==> j < k || j == k + HALF
  {
    SeqLessThanByDistance(j, k);
    if j < k {
      ModuloShift(j - k, 1);
      assert (j - k) % MODULUS == j - k + MODULUS;
    }
  }

  /** The comparison of section 3.2 of RFC 1982 with SERIAL_BITS = 24. */
  predicate Rfc1982Less(a: u24, b: u24) {
    || (a < b && b - a < HALF)
    || (a > b && a - b > HALF)
  }

  lemma SeqLessThanIsRfc1982(a: u24, b: u24)
    ensures SeqLessThan(a, b) <==> Rfc1982Less(a, b) || a - b == HALF || b - a == HALF
  {
    SeqLessThanByDistance(a, b);
    assert a % MODULUS == a && b % MODULUS == b;
    if a < b {
      ModuloShift(a - b, 1);
      assert (a - b) % MODULUS == a - b + MODULUS;
    }
  }

  /** A counter that hands out 24-bit numbers from a 32-bit word. */
  class AtomicU24 {
    var raw: u32

    constructor (val: u32)
      ensures raw == Mask24(val)
    {
      raw := Mask24(val);
    }

    method FetchAdd(val: u32) returns (previous: u24)
      modifies this
      ensures raw == WrappingAdd(old(raw), val)
      ensures previous == Mask24(old(raw))
    {
      var before := raw;
      raw := WrappingAdd(raw, val);
      previous := Mask24(before);
    }
  }

  /** The word of a counter started at 0 after `k` calls of `FetchAdd(1)`. */
  function RawAfter(k: nat): u32 {
    if k == 0 then 0 else WrappingAdd(RawAfter(k - 1), 1)
  }

  lemma NextResidue(k: nat)
    ensures WrappingAdd(k % 0x1_0000_0000, 1) == (k + 1) % 0x1_0000_0000
  {
    var q := k / 0x1_0000_0000;
    assert k == q * 0x1_0000_0000 + k % 0x1_0000_0000;
    assert k % 0x1_0000_0000 == 0xFFFF_FFFF ==> k + 1 == (q + 1) * 0x1_0000_0000;
  }

  lemma {:induction false} RawIsCount(k: nat)
    ensures RawAfter(k) == k % 0x1_0000_0000
  {
    if k != 0 {
      RawIsCount(k - 1);
      NextResidue(k - 1);
    }
  }

  /** Every number handed out is the true count modulo 2^24, also past the 32-bit overflow. */
  lemma HandoutIsCount(k: nat)
    ensures Mask24(RawAfter(k)) == k % MODULUS
  {
    RawIsCount(k);
    var q := k / 0x1_0000_0000;
    assert k == RawAfter(k) + (q * 0x100) * MODULUS;
    ModuloShift(RawAfter(k), q * 0x100);
  }

  /** The order of two handouts less than half the space apart is read off the handouts. */
  lemma HandoutsCompare(j: nat, k: nat)
    requires -HALF < j - k < HALF
    ensures SeqLessThan(Mask24(RawAfter(j)), Mask24(RawAfter(k))) <==> j < k
  {
    HandoutIsCount(j);
    HandoutIsCount(k);
    SeqLessThanAgrees(j, k);
  }

  /** The three little-endian bytes of a number. */
  function U24Le(x: u24): (s: seq<byte>)
    ensures |s| == 3 && s[0] as int + s[1] as int * 0x100 + s[2] as int * 0x1_0000 == x
  {
    [x % 0x100, x / 0x100 % 0x100, x / 0x1_0000]
  }

  method WriteU24Le(buf: array<byte>, val: u24)
    requires buf.Length >= 3
    modifies buf
    ensures buf[..3] == U24Le(val)
    ensures buf[3..] == old(buf[3..])
  {
    buf[0] := val % 0x100;
    buf[1] := val / 0x100 % 0x100;
    buf[2] := val / 0x1_0000 % 0x100;
  }

  lemma DigitsLe(a: byte, b: byte, c: byte)
    ensures var x := a + b * 0x100 + c * 0x1_0000;
            x % 0x100 == a && x / 0x100 % 0x100 == b && x / 0x1_0000 == c
  {
    var x := a + b * 0x100 + c * 0x1_0000;
    assert x / 0x100 == b + c * 0x100;
  }

  /** Reading is the inverse of `U24Le` on every three bytes. */
  function ReadU24Le(s: seq<byte>): (x: u24)
    requires |s| >= 3
    ensures U24Le(x) == s[..3]
  {
    DigitsLe(s[0], s[1], s[2]);
    s[0] as int + s[1] as int * 0x100 + s[2] as int * 0x1_0000
  }

  lemma ReadAfterWrite(x: u24, tail: seq<byte>)
    ensures ReadU24Le(U24Le(x) + tail) == x
  {
    assert (U24Le(x) + tail)[..3] == U24Le(x);
  }
}
