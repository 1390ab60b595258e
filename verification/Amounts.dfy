/** Signed external amounts and their encoding in the BN254 scalar field. */
module Amounts {
  import opened Bits
  import opened Bn254

  /** The host's `I256`. */
  const I256_MIN: int := -0x8000000000000000_0000000000000000_0000000000000000_0000000000000000

  type I256 = x: int | I256_MIN <= x < -I256_MIN

  /** 2^248, the exclusive bound on the size of an external amount. */
  const MAX_EXT_AMOUNT: int := 0x0100_0000_0000_0000_0000_0000_0000_0000_0000_0000_0000_0000_0000_0000_0000_0000

  const I128_MAX: int := 0x7FFF_FFFF_FFFF_FFFF_FFFF_FFFF_FFFF_FFFF

  datatype Amount = Encoded(value: Fe) | TooLarge | NegationOverflow

  predicate InBounds(x: int) {
    -MAX_EXT_AMOUNT < x < MAX_EXT_AMOUNT
  }

  /** The signed integer nearest to zero that a field element stands for. */
  function CentredLift(a: Fe): int {
    if 2 * a < P then a else a - P
  }

  /** Negating the smallest `I256` traps in the host; other amounts are bounded, then encoded so that
      the centred lift gives them back. */
  function CalculatePublicAmount(x: I256): (r: Amount)
    ensures r.Encoded? <==> InBounds(x)
    ensures r == NegationOverflow <==> x == I256_MIN
    ensures r.Encoded? ==> CentredLift(r.value) == x
  {
    if x == I256_MIN then NegationOverflow
    else if (if x >= 0 then x else -x) >= MAX_EXT_AMOUNT then TooLarge
    else if x >= 0 then Encoded(x)
    else Encoded(P - (-x))
  }

  /** The bounds as powers of two. */
  lemma AmountLimits(e: nat)
    requires e == 8
    ensures MAX_EXT_AMOUNT == Pow2(31 * e) && -I256_MIN == Pow2(32 * e - 1) && I128_MAX == Pow2(16 * e - 1) - 1
  {
    assert Pow2(e / 2 - 2) == 4;
    assert Pow2(e / 2) == 16;
    Pow2Doubled(e / 2, 16);
    Pow2Doubled(e, 0x100);
    Pow2Doubled(2 * e, 0x1_0000);
    Pow2Doubled(4 * e, 0x1_0000_0000);
    Pow2Doubled(8 * e, 0x1_0000_0000_0000_0000);
    Pow2Add(16 * e, 8 * e);
    Pow2Add(24 * e, 4 * e);
    Pow2Add(28 * e, 2 * e);
    Pow2Add(30 * e, e);
    Pow2Add(31 * e, e);
  }

  /** Amounts in bounds are those of size below 2^248. */
  lemma InBoundsExactly(x: int, n: nat)
    requires n == 248
    ensures InBounds(x) <==> -x < Pow2(n) && x < Pow2(n)
  {
    AmountLimits(n / 31);
  }

  /** The encoding is congruent to the amount, and within bounds the amount is the only such integer. */
  lemma EncodingCongruent(x: I256, y: int)
    requires InBounds(x) && InBounds(y)
    ensures (CalculatePublicAmount(x).value - y) % P == 0 <==> x == y
  {
    var a := CalculatePublicAmount(x).value;
    assert a - y == (x - y) || a - y == (x - y) + P;
    assert P % P == 0;
  }

  /** Sums are encoded by field addition as long as they stay in bounds. */
  lemma EncodingAdditive(x: I256, y: I256)
    requires InBounds(x) && InBounds(y) && InBounds(x + y)
    ensures CalculatePublicAmount(x + y).value
         == (CalculatePublicAmount(x).value + CalculatePublicAmount(y).value) % P
  {
  }
}
