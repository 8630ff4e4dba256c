/** The 32-bit sequence numbers of RUDPLink: every counter is a u32_t that wraps. */
module Seq32 {
  type u32 = x: int | 0 <= x < 0x1_0000_0000

  /** The 32-bit number that stands for an unbounded index. */
  function Wrap(n: int): u32 {
    n % 0x1_0000_0000
  }

  /** `incoming` counts as newer when it lies at most 2^31 - 1 ahead, modulo 2^32. */
  predicate IsSequenceNewer(incoming: u32, having: u32) {
    Wrap(incoming - having) <= 0x7FFF_FFFF
  }

  /** The i-th number before, and after, a sequence number. */
  function Back(s: u32, i: int): u32 {
    Wrap(s - i)
  }

  function Fwd(s: u32, i: int): u32 {
    Wrap(s + i)
  }

  /** Within half the number space the wrapped comparison is the true one. */
  lemma NewerIsTrueOrder(incoming: int, having: int)
    requires -0x8000_0000 <= incoming - having < 0x8000_0000
    ensures IsSequenceNewer(Wrap(incoming), Wrap(having)) <==> incoming >= having
  {
    WrapMinus(incoming, having);
  }

  lemma WrapMinus(i: int, j: int)
    ensures Wrap(Wrap(i) - Wrap(j)) == Wrap(i - j)
  {
    var k := (i - Wrap(i)) / 0x1_0000_0000 - (j - Wrap(j)) / 0x1_0000_0000;
    assert i - j == Wrap(i) - Wrap(j) + k * 0x1_0000_0000;
  }

  /** Up to 2^31 - 1 ahead is always newer, wherever the counters stand. */
  lemma AheadIsNewer(incoming: int, having: int)
    requires 0 <= incoming - having < 0x8000_0000
    ensures IsSequenceNewer(Wrap(incoming), Wrap(having))
  {
    NewerIsTrueOrder(incoming, having);
  }

  /** The comparison is reflexive, and decides every pair of different numbers one
      way or the other, except a pair exactly 2^31 apart: there neither is newer. */
  lemma NewerDecides(a: u32, b: u32)
    ensures IsSequenceNewer(a, a)
    ensures a != b ==> ((IsSequenceNewer(a, b) <==> !IsSequenceNewer(b, a)) <==> Wrap(a - b) != 0x8000_0000)
    ensures Wrap(a - b) == 0x8000_0000 ==> !IsSequenceNewer(a, b) && !IsSequenceNewer(b, a)
  {
    assert Wrap(a - b) == if a >= b then a - b else a - b + 0x1_0000_0000;
    assert Wrap(b - a) == if b >= a then b - a else b - a + 0x1_0000_0000;
  }

  lemma WrapInjective(lo: int, i: int, j: int)
    requires lo <= i < lo + 0x1_0000_0000
    requires lo <= j < lo + 0x1_0000_0000
    requires Wrap(i) == Wrap(j)
    ensures i == j
  {
  }

  lemma WrapSmall(n: int)
    requires 0 <= n < 0x1_0000_0000
    ensures Wrap(n) == n
  {
  }

  lemma WrapSteps(n: int, i: int)
    ensures Fwd(Wrap(n), i) == Wrap(n + i)
    ensures Back(Wrap(n), i) == Wrap(n - i)
  {
  }
}
