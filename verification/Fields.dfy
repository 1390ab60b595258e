/** Fields as records of operations. `Lawful` states the axioms; `inv` means something on non-zero elements only. */
module Fields {

  datatype Field<!T(!new)> = Field(zero: T, one: T, add: (T, T) -> T, neg: T -> T, mul: (T, T) -> T, inv: T -> T) {

    ghost predicate AddCommutes(a: T, b: T) { add(a, b) == add(b, a) }
    ghost predicate AddAssociates(a: T, b: T, c: T) { add(add(a, b), c) == add(a, add(b, c)) }
    ghost predicate AddUnit(a: T) { add(a, zero) == a && add(a, neg(a)) == zero }
    ghost predicate MulCommutes(a: T, b: T) { mul(a, b) == mul(b, a) }
    ghost predicate MulAssociates(a: T, b: T, c: T) { mul(mul(a, b), c) == mul(a, mul(b, c)) }
    ghost predicate MulUnit(a: T) { mul(a, one) == a && (a != zero ==> mul(a, inv(a)) == one) }
    ghost predicate Distributes(a: T, b: T, c: T) { mul(a, add(b, c)) == add(mul(a, b), mul(a, c)) }

    /** The field axioms. Each is wrapped in a predicate, so that it is used only where it is named. */
    ghost predicate Lawful() {
      && (forall a, b :: AddCommutes(a, b))
      && (forall a, b, c :: AddAssociates(a, b, c))
      && (forall a :: AddUnit(a))
      && (forall a, b :: MulCommutes(a, b))
      && (forall a, b, c :: MulAssociates(a, b, c))
      && (forall a :: MulUnit(a))
      && (forall a, b, c :: Distributes(a, b, c))
      && one != zero
    }

    function Sub(a: T, b: T): T {
      add(a, neg(b))
    }

    // -------------------------------------------------------------- consequences

    lemma AddZero(a: T)
      requires Lawful()
      ensures add(a, zero) == a && add(zero, a) == a
    {
      assert AddUnit(a) && AddCommutes(a, zero);
    }

    lemma AddCancel(a: T, b: T, c: T)
      requires Lawful() && add(a, b) == add(a, c)
      ensures b == c
    {
      forall x ensures add(neg(a), add(a, x)) == x {
        assert AddAssociates(neg(a), a, x) && AddCommutes(neg(a), a) && AddUnit(a);
        AddZero(x);
      }
      assert add(neg(a), add(a, b)) == b;
    }

    lemma MulZero(a: T)
      requires Lawful()
      ensures mul(a, zero) == zero && mul(zero, a) == zero
    {
      assert Distributes(a, zero, zero) && AddUnit(zero);
      AddZero(mul(a, zero));
      AddCancel(mul(a, zero), mul(a, zero), zero);
      assert MulCommutes(a, zero);
    }

    lemma MulOne(a: T)
      requires Lawful()
      ensures mul(a, one) == a && mul(one, a) == a
    {
      assert MulUnit(a) && MulCommutes(a, one);
    }

    lemma NegUnique(a: T, b: T)
      requires Lawful() && add(a, b) == zero
      ensures b == neg(a)
    {
      assert AddUnit(a);
      AddCancel(a, b, neg(a));
    }

    lemma MulAdd(a: T, b: T, c: T)
      requires Lawful()
      ensures mul(add(a, b), c) == add(mul(a, c), mul(b, c))
    {
      assert Distributes(c, a, b) && MulCommutes(add(a, b), c) && MulCommutes(a, c) && MulCommutes(b, c);
    }

    lemma NegMul(a: T, b: T)
      requires Lawful()
      ensures neg(mul(a, b)) == mul(neg(a), b) == mul(neg(b), a)
    {
      MulAdd(a, neg(a), b);
      MulAdd(b, neg(b), a);
      assert AddUnit(a) && AddUnit(b) && MulCommutes(a, b);
      MulZero(b);
      MulZero(a);
      NegUnique(mul(a, b), mul(neg(a), b));
      NegUnique(mul(a, b), mul(neg(b), a));
    }

    lemma SubIsZero(a: T, b: T)
      requires Lawful()
      ensures add(a, neg(b)) == zero <==> a == b
    {
      assert AddUnit(b) && AddCommutes(a, neg(b)) && AddCommutes(b, neg(b));
      if add(a, neg(b)) == zero { AddCancel(neg(b), a, b); }
    }

    lemma NoZeroDivisor(a: T, b: T)
      requires Lawful() && mul(a, b) == zero && b != zero
      ensures a == zero
    {
      assert MulAssociates(a, b, inv(b)) && MulUnit(b);
      MulZero(inv(b));
      MulOne(a);
    }

    /** `(a + b) + (c + d) == (a + c) + (b + d)` */
    lemma Interchange(a: T, b: T, c: T, d: T)
      requires Lawful()
      ensures add(add(a, b), add(c, d)) == add(add(a, c), add(b, d))
    {
      calc {
        add(add(a, b), add(c, d));
        { assert AddAssociates(a, b, add(c, d)); }
        add(a, add(b, add(c, d)));
        { assert AddAssociates(b, c, d) && AddCommutes(b, c) && AddAssociates(c, b, d); }
        add(a, add(c, add(b, d)));
        { assert AddAssociates(a, c, add(b, d)); }
        add(add(a, c), add(b, d));
      }
    }
  }

  /** The prime field with two elements. */
  function TwoElements(): Field<bool> {
    Field(false, true, (a: bool, b: bool) => a != b, (a: bool) => a, (a: bool, b: bool) => a && b, (a: bool) => a)
  }

  /** The axioms are consistent. */
  lemma TwoElementsLawful()
    ensures TwoElements().Lawful()
  {
  }
}
