/** Bytes, 64-bit words and their little-endian layout, and page arithmetic
    (the macros of shsrv/elfldr.c). */
module Words {
  type byte = x: int | 0 <= x < 256

  const WORD: int := 0x1_0000_0000_0000_0000
  type u64 = x: int | 0 <= x < 0x1_0000_0000_0000_0000

  /** Unsigned 64-bit wrap-around. */
  function Wrap(x: int): u64 {
    x % WORD
  }

  // ---------------------------------------------------------------- little endian

  function Pow256(n: nat): nat {
    if n == 0 then 1 else 256 * Pow256(n - 1)
  }

  function LeBytes(x: nat, n: nat): (b: seq<byte>)
    ensures |b| == n
  {
    if n == 0 then [] else [x % 256] + LeBytes(x / 256, n - 1)
  }

  function LeValue(b: seq<byte>): nat {
    if b == [] then 0 else b[0] + 256 * LeValue(b[1..])
  }

  lemma {:induction false} LeRoundTrip(x: nat, n: nat)
    requires x < Pow256(n)
    ensures LeValue(LeBytes(x, n)) == x
  {
    if n > 0 {
      LeRoundTrip(x / 256, n - 1);
      assert LeBytes(x, n)[1..] == LeBytes(x / 256, n - 1);
    }
  }

  /** The eight bytes a 64-bit store writes. */
  function Le64(x: u64): (b: seq<byte>)
    ensures |b| == 8
  {
    LeBytes(x, 8)
  }

  /** Byte k is the k-th digit to the base 256, the lowest first; y is the upper
      half of x. */
  lemma Le64Bytes(x: u64)
    ensures var y := x / 0x1_0000_0000;
      Le64(x) == [x % 0x100, x / 0x100 % 0x100, x / 0x1_0000 % 0x100, x / 0x100_0000 % 0x100]
        + [y % 0x100, y / 0x100 % 0x100, y / 0x1_0000 % 0x100, y / 0x100_0000 % 0x100]
  {
    var y := x / 0x1_0000_0000;
    LeBytesFour(x, 4);
    LeBytesFour(y, 0);
    assert LeBytes(y / 0x1_0000_0000, 0) == [];
    hide LeBytes;
  }

  lemma LeBytesFour(x: nat, n: nat)
    ensures LeBytes(x, n + 4)
      == [x % 0x100, x / 0x100 % 0x100, x / 0x1_0000 % 0x100, x / 0x100_0000 % 0x100] + LeBytes(x / 0x1_0000_0000, n)
  {
    var x1 := x / 0x100;
    var x2, x3, x4 := x / 0x1_0000, x / 0x100_0000, x / 0x1_0000_0000;
    assert x2 == x1 / 0x100 && x3 == x2 / 0x100 && x4 == x3 / 0x100;
    LeBytesOne(x, n + 4);
    LeBytesOne(x1, n + 3);
    LeBytesOne(x2, n + 2);
    LeBytesOne(x3, n + 1);
    hide LeBytes;
  }

  lemma LeBytesOne(x: nat, n: nat)
    requires n > 0
    ensures LeBytes(x, n) == [x % 0x100] + LeBytes(x / 0x100, n - 1)
  {
  }

  lemma Le64RoundTrip(x: u64)
    ensures LeValue(Le64(x)) == x
  {
    assert Pow256(8) == WORD by {
      assert Pow256(2) == 0x1_0000;
      assert Pow256(4) == 0x1_0000_0000;
      assert Pow256(6) == 0x1_0000_0000_0000;
    }
    LeRoundTrip(x, 8);
  }

  // ---------------------------------------------------------------- pages

  const PAGE: int := 0x4000

  /** TRUNC_PG. MaskIsTruncation relates it to the source's bit mask. */
  function TruncPg(x: u64): u64 {
    x - x % PAGE
  }

  /** ROUND_PG, with the 64-bit wrap-around of its addition. */
  function RoundPg(x: u64): u64 {
    TruncPg(Wrap(x + PAGE - 1))
  }

  lemma MaskIsTruncation(x: bv64)
    ensures x & !(0x4000 - 1) == x - x % 0x4000
  {
  }

  lemma RoundPgLeast(x: u64)
    requires x + PAGE - 1 < WORD
    ensures RoundPg(x) % PAGE == 0
    ensures x <= RoundPg(x) < x + PAGE
  {
  }

  /** Two multiples of the page size less than a page apart are ordered. */
  lemma AlignedBelow(a: int, b: int)
    requires a % PAGE == 0 && b % PAGE == 0
    requires a < b + PAGE
    ensures a <= b
  {
  }

  /** TRUNC_PG and ROUND_PG are the nearest multiples below and above. */
  lemma AlignedHull(lo: u64, hi: u64, a: int, b: int)
    requires a % PAGE == 0 && b % PAGE == 0 && a <= lo && hi <= b && hi + PAGE - 1 < WORD
    ensures a <= TruncPg(lo) && RoundPg(hi) <= b
  {
    RoundPgLeast(hi);
    AlignedBelow(RoundPg(hi), b);
    AlignedBelow(a, TruncPg(lo));
  }

  lemma HullSize(lo: u64, hi: u64)
    requires lo <= hi && hi + PAGE - 1 < WORD
    ensures TruncPg(lo) <= lo && TruncPg(lo) % PAGE == 0
    ensures TruncPg(lo) <= RoundPg(hi) && Wrap(RoundPg(hi) - TruncPg(lo)) == RoundPg(hi) - TruncPg(lo)
  {
    RoundPgLeast(hi);
  }
}
