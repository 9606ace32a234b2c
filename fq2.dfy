/** The arithmetic interface of FQ2, the degree-2 extension field of BLS12-381,
    as the map to G2 consumes it. The field is abstract: a record of its
    operations, and a predicate saying they obey the commutative ring laws and
    that `sgn0` tells a nonzero element from its negation. Every law is stated
    through a small predicate of its own, and the quantifier over it is
    triggered by that predicate only, so a proof instantiates a law exactly
    where it names it (`assert MulComm(R, a, b);`). */
module Fq2 {

  /** The operations of FQ2 on its element type `F`. `fromCoeffs(c0, c1)` is
      the element `c0 + c1 * i` built from two base-field integers, as
      `FQ2([c0, c1])` does (reduction modulo the prime happens inside). */
  datatype Field<!F> = Field(
    zero: F,
    one: F,
    add: (F, F) -> F,
    neg: F -> F,
    mul: (F, F) -> F,
    sgn0: F -> bool,
    fromCoeffs: (int, int) -> F)

  /** FQ2 subtraction `a - b`. */
  function Sub<F>(R: Field<F>, a: F, b: F): F
  {
    R.add(a, R.neg(b))
  }

  /** FQ2 exponentiation `x ** n`. */
  function Pow<F>(R: Field<F>, x: F, n: nat): F
  {
    if n == 0 then R.one else R.mul(x, Pow(R, x, n - 1))
  }

  // The laws, one predicate each.

  ghost predicate AddAssoc<F(!new)>(R: Field<F>, a: F, b: F, c: F)
  {
    R.add(R.add(a, b), c) == R.add(a, R.add(b, c))
  }

  ghost predicate AddComm<F(!new)>(R: Field<F>, a: F, b: F)
  {
    R.add(a, b) == R.add(b, a)
  }

  ghost predicate AddZero<F(!new)>(R: Field<F>, a: F)
  {
    R.add(a, R.zero) == a
  }

  ghost predicate AddNeg<F(!new)>(R: Field<F>, a: F)
  {
    R.add(a, R.neg(a)) == R.zero
  }

  ghost predicate MulAssoc<F(!new)>(R: Field<F>, a: F, b: F, c: F)
  {
    R.mul(R.mul(a, b), c) == R.mul(a, R.mul(b, c))
  }

  ghost predicate MulComm<F(!new)>(R: Field<F>, a: F, b: F)
  {
    R.mul(a, b) == R.mul(b, a)
  }

  ghost predicate MulOne<F(!new)>(R: Field<F>, a: F)
  {
    R.mul(a, R.one) == a
  }

  ghost predicate Distrib<F(!new)>(R: Field<F>, a: F, b: F, c: F)
  {
    R.mul(a, R.add(b, c)) == R.add(R.mul(a, b), R.mul(a, c))
  }

  /** The property of the field's sign function that the map relies on:
      negating a nonzero element flips its sign bit. */
  ghost predicate SignFlips<F(!new)>(R: Field<F>, y: F)
  {
    y != R.zero ==> R.sgn0(R.neg(y)) != R.sgn0(y)
  }

  /** The operations form a commutative ring. */
  ghost predicate IsCommRing<F(!new)>(R: Field<F>)
  {
    && (forall a, b, c :: AddAssoc(R, a, b, c))
    && (forall a, b :: AddComm(R, a, b))
    && (forall a :: AddZero(R, a))
    && (forall a :: AddNeg(R, a))
    && (forall a, b, c :: MulAssoc(R, a, b, c))
    && (forall a, b :: MulComm(R, a, b))
    && (forall a :: MulOne(R, a))
    && (forall a, b, c :: Distrib(R, a, b, c))
  }

  /** `sgn0` flips under negation of every nonzero element. */
  ghost predicate SignLaw<F(!new)>(R: Field<F>)
  {
    forall y :: SignFlips(R, y)
  }

  /** Everything the map assumes of its field collaborator. */
  ghost predicate Valid<F(!new)>(R: Field<F>)
  {
    IsCommRing(R) && SignLaw(R)
  }

  /** The ring of integers, with "negative" as its sign bit. */
  function IntegerField(): Field<int>
  {
    Field(0, 1, (a, b) => a + b, a => -a, (a, b) => a * b, y => y < 0, (c0, c1) => c0)
  }

  /** The assumptions in `Valid` are consistent: the integers meet them. */
  lemma IntegerFieldIsValid()
    ensures Valid(IntegerField())
  {
    var R := IntegerField();
    forall a: int, b: int, c: int ensures MulAssoc(R, a, b, c) && Distrib(R, a, b, c) {
      assert (a * b) * c == a * (b * c);
      assert a * (b + c) == a * b + a * c;
    }
  }

  // Derived ring facts.

  /** An element and its negation cancel in either order. */
  lemma NegAddLeft<F(!new)>(R: Field<F>, a: F)
    requires IsCommRing(R)
    ensures R.add(R.neg(a), a) == R.zero
  {
    assert AddNeg(R, a);
    assert AddComm(R, R.neg(a), a);
  }

  /** `zero` is a left identity too. */
  lemma ZeroAddLeft<F(!new)>(R: Field<F>, a: F)
    requires IsCommRing(R)
    ensures R.add(R.zero, a) == a
  {
    assert AddZero(R, a);
    assert AddComm(R, R.zero, a);
  }

  /** The code's test `a - b == 0` decides `a == b`. */
  lemma SubZeroIff<F(!new)>(R: Field<F>, a: F, b: F)
    requires IsCommRing(R)
    ensures Sub(R, a, b) == R.zero <==> a == b
  {
    if Sub(R, a, b) == R.zero {
      calc {
        a;
        == { assert AddZero(R, a); }
        R.add(a, R.zero);
        == { NegAddLeft(R, b); }
        R.add(a, R.add(R.neg(b), b));
        == { assert AddAssoc(R, a, R.neg(b), b); }
        R.add(R.add(a, R.neg(b)), b);
        == { ZeroAddLeft(R, b); }
        b;
      }
    }
    if a == b {
      assert AddNeg(R, a);
    }
  }

  /** Additive inverses are unique. */
  lemma NegUnique<F(!new)>(R: Field<F>, a: F, b: F)
    requires IsCommRing(R)
    requires R.add(a, b) == R.zero
    ensures b == R.neg(a)
  {
    calc {
      b;
      == { assert AddZero(R, b); }
      R.add(b, R.zero);
      == { assert AddNeg(R, a); }
      R.add(b, R.add(a, R.neg(a)));
      == { assert AddAssoc(R, b, a, R.neg(a)); }
      R.add(R.add(b, a), R.neg(a));
      == { assert AddComm(R, b, a); }
      R.add(R.zero, R.neg(a));
      == { ZeroAddLeft(R, R.neg(a)); }
      R.neg(a);
    }
  }

  /** Negation fixes zero: `-0 == 0`. */
  lemma NegZero<F(!new)>(R: Field<F>)
    requires IsCommRing(R)
    ensures R.neg(R.zero) == R.zero
  {
    assert AddZero(R, R.zero);
    NegUnique(R, R.zero, R.zero);
  }

  /** Negation is an involution. */
  lemma NegNeg<F(!new)>(R: Field<F>, a: F)
    requires IsCommRing(R)
    ensures R.neg(R.neg(a)) == a
  {
    NegAddLeft(R, a);
    NegUnique(R, R.neg(a), a);
  }

  /** Multiplying by zero gives zero. */
  lemma MulZero<F(!new)>(R: Field<F>, a: F)
    requires IsCommRing(R)
    ensures R.mul(a, R.zero) == R.zero
  {
    var p := R.mul(a, R.zero);
    assert AddZero(R, R.zero);
    assert Distrib(R, a, R.zero, R.zero);
    assert R.add(p, p) == p;
    calc {
      R.zero;
      == { assert AddNeg(R, p); }
      R.add(p, R.neg(p));
      ==
      R.add(R.add(p, p), R.neg(p));
      == { assert AddAssoc(R, p, p, R.neg(p)); assert AddNeg(R, p); }
      R.add(p, R.zero);
      == { assert AddZero(R, p); }
      p;
    }
  }

  /** `a * (-b) == -(a * b)`. */
  lemma MulNeg<F(!new)>(R: Field<F>, a: F, b: F)
    requires IsCommRing(R)
    ensures R.mul(a, R.neg(b)) == R.neg(R.mul(a, b))
  {
    assert Distrib(R, a, b, R.neg(b));
    assert AddNeg(R, b);
    MulZero(R, a);
    NegUnique(R, R.mul(a, b), R.mul(a, R.neg(b)));
  }

  /** `x ** 1 == x`. */
  lemma PowOne<F(!new)>(R: Field<F>, x: F)
    requires IsCommRing(R)
    ensures Pow(R, x, 1) == x
  {
    assert MulOne(R, x);
  }

  /** `x ** 2 == x * x`. */
  lemma PowTwo<F(!new)>(R: Field<F>, x: F)
    requires IsCommRing(R)
    ensures Pow(R, x, 2) == R.mul(x, x)
  {
    PowOne(R, x);
  }

  /** `x ** 3 == x * (x * x)`. */
  lemma PowThree<F(!new)>(R: Field<F>, x: F)
    requires IsCommRing(R)
    ensures Pow(R, x, 3) == R.mul(x, R.mul(x, x))
  {
    PowTwo(R, x);
  }

  /** Squaring forgets the sign: `(-y) ** 2 == y ** 2`. */
  lemma SquareOfNeg<F(!new)>(R: Field<F>, y: F)
    requires IsCommRing(R)
    ensures Pow(R, R.neg(y), 2) == Pow(R, y, 2)
  {
    PowTwo(R, y);
    PowTwo(R, R.neg(y));
    calc {
      R.mul(R.neg(y), R.neg(y));
      == { MulNeg(R, R.neg(y), y); }
      R.neg(R.mul(R.neg(y), y));
      == { assert MulComm(R, R.neg(y), y); MulNeg(R, y, y); }
      R.neg(R.neg(R.mul(y, y)));
      == { NegNeg(R, R.mul(y, y)); }
      R.mul(y, y);
    }
  }

  /** Regrouping a product of two products. */
  lemma MulSwapInner<F(!new)>(R: Field<F>, a: F, b: F, c: F, d: F)
    requires IsCommRing(R)
    ensures R.mul(R.mul(a, b), R.mul(c, d)) == R.mul(R.mul(a, c), R.mul(b, d))
  {
    calc {
      R.mul(R.mul(a, b), R.mul(c, d));
      == { assert MulAssoc(R, a, b, R.mul(c, d)); }
      R.mul(a, R.mul(b, R.mul(c, d)));
      == { assert MulAssoc(R, b, c, d); }
      R.mul(a, R.mul(R.mul(b, c), d));
      == { assert MulComm(R, b, c); }
      R.mul(a, R.mul(R.mul(c, b), d));
      == { assert MulAssoc(R, c, b, d); }
      R.mul(a, R.mul(c, R.mul(b, d)));
      == { assert MulAssoc(R, a, c, R.mul(b, d)); }
      R.mul(R.mul(a, c), R.mul(b, d));
    }
  }

  /** `x ** (m + n) == x ** m * x ** n`. */
  lemma {:induction false} PowAdd<F(!new)>(R: Field<F>, x: F, m: nat, n: nat)
    requires IsCommRing(R)
    ensures Pow(R, x, m + n) == R.mul(Pow(R, x, m), Pow(R, x, n))
    decreases m
  {
    if m == 0 {
      assert MulComm(R, R.one, Pow(R, x, n));
      assert MulOne(R, Pow(R, x, n));
    } else {
      PowAdd(R, x, m - 1, n);
      assert MulAssoc(R, x, Pow(R, x, m - 1), Pow(R, x, n));
    }
  }

  /** `(a * b) ** n == a ** n * b ** n`. */
  lemma {:induction false} PowMul<F(!new)>(R: Field<F>, a: F, b: F, n: nat)
    requires IsCommRing(R)
    ensures Pow(R, R.mul(a, b), n) == R.mul(Pow(R, a, n), Pow(R, b, n))
  {
    if n == 0 {
      assert MulOne(R, R.one);
    } else {
      PowMul(R, a, b, n - 1);
      MulSwapInner(R, a, b, Pow(R, a, n - 1), Pow(R, b, n - 1));
    }
  }
}
