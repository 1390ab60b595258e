/** Fixed-width integers of the Soroban host and their binary expansion, least significant bit first. */
module Bits {

  /** 2^256, the size of the host's `U256` type. */
  const U256_SIZE: nat := 0x1_0000000000000000_0000000000000000_0000000000000000_0000000000000000

  type U256 = x: nat | x < U256_SIZE witness 0

  /** Number of bits `split_bits` extracts from a key. */
  const KEY_BITS: nat := 256

  function Pow2(n: nat): (r: nat)
    ensures r >= 1
  {
    if n == 0 then 1 else 2 * Pow2(n - 1)
  }

  /** Bit `i` of `k`, counted from the least significant end. */
  predicate Bit(k: nat, i: nat)
    decreases i
  {
    if i == 0 then k % 2 == 1 else Bit(k / 2, i - 1)
  }

  ghost predicate SameBits(a: nat, b: nat, n: nat) {
    forall i: nat :: i < n ==> Bit(a, i) == Bit(b, i)
  }

  /** Numbers below 2^n are determined by their lowest n bits. */
  lemma {:induction false} BitsDetermine(a: nat, b: nat, n: nat)
    requires a < Pow2(n) && b < Pow2(n) && SameBits(a, b, n)
    ensures a == b
  {
    if n > 0 {
      assert Bit(a, 0) == Bit(b, 0);
      forall i: nat | i < n - 1 ensures Bit(a / 2, i) == Bit(b / 2, i) {
        assert Bit(a, i + 1) == Bit(b, i + 1);
      }
      BitsDetermine(a / 2, b / 2, n - 1);
    }
  }

  /** The number that a list of bits stands for, least significant bit first. */
  function Value(bits: seq<bool>): nat {
    if bits == [] then 0 else (if bits[0] then 1 else 0) + 2 * Value(bits[1..])
  }

  /** The lowest n bits of a number below 2^n spell that number. */
  lemma {:induction false} BitsSpell(k: nat, bits: seq<bool>)
    requires k < Pow2(|bits|) && forall i :: 0 <= i < |bits| ==> bits[i] == Bit(k, i)
    ensures Value(bits) == k
    decreases |bits|
  {
    if bits != [] {
      forall i | 0 <= i < |bits| - 1 ensures bits[1..][i] == Bit(k / 2, i) {
        assert bits[i + 1] == Bit(k, i + 1);
      }
      BitsSpell(k / 2, bits[1..]);
      assert bits[0] == Bit(k, 0);
    }
  }

  lemma {:induction false} Pow2Add(m: nat, n: nat)
    ensures Pow2(m + n) == Pow2(m) * Pow2(n)
  {
    if m > 0 {
      Pow2Add(m - 1, n);
      assert Pow2(m + n) == 2 * Pow2(m - 1 + n);
    }
  }

  lemma Pow2Doubled(n: nat, x: nat)
    requires Pow2(n) == x
    ensures Pow2(2 * n) == x * x
  {
    Pow2Add(n, n);
  }

  lemma Pow2Of256(n: nat)
    requires n == KEY_BITS
    ensures Pow2(n) == U256_SIZE
  {
    var e := n / 64;
    assert Pow2(e - 2) == 4;
    assert Pow2(e) == 16;
    Pow2Doubled(e, 16);
    Pow2Doubled(2 * e, 0x100);
    Pow2Doubled(4 * e, 0x1_0000);
    Pow2Doubled(8 * e, 0x1_0000_0000);
    Pow2Doubled(16 * e, 0x1_0000_0000_0000_0000);
    Pow2Doubled(32 * e, 0x1_0000_0000_0000_0000_0000_0000_0000_0000);
  }

  /** Distinct 256-bit keys differ in one of their 256 bits. */
  lemma KeysDiffer(a: U256, b: U256)
    requires a != b
    ensures exists i: nat :: i < KEY_BITS && Bit(a, i) != Bit(b, i)
  {
    var n := KEY_BITS;
    if SameBits(a, b, n) {
      Pow2Of256(n);
      BitsDetermine(a, b, n);
    }
  }
}
