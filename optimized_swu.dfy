/** The Optimized Simplified SWU map from FQ2 to the 3-isogenous curve
    E2': y^2 = x^3 + A x + B, and the 3-isogeny from E2' to the twist curve of
    BLS12-381 that carries G2. The construction is the one of section 4 of
    eprint 2019/403 ("Fast and simple constant-time hashing to the BLS12-381
    elliptic curve"); it matches section 6.6.2 and appendix E.3 of RFC 9380.

    Everything is generic in the element type `F` of the field interface
    `Fq2.Field`, and every constant the map reads is a field of `Constants`. */
module OptimizedSwu {
  import opened Fq2

  /** A projective point `(x, y, z)`, standing for the affine point `(x / z, y / z)`. */
  datatype Point<F> = Point(x: F, y: F, z: F)

  /** A value, or the exception the map raises. */
  datatype Result<T> = Success(value: T) | Failure(error: string)

  /** The message of the exception raised when neither square root exists. */
  const SwuFailure := "Hash to Curve - Optimized SWU failure"

  /** The constants the map imports: the coefficients `A`, `B` of E2', the
      non-square `Z`, the exponent `(p - 9) / 16`, the positive eighth roots of
      unity, the two base-field integers `EV1`, `EV2` from which the eta values
      are built, and the four coefficient lists of the isogeny (x-numerator,
      x-denominator, y-numerator, y-denominator, lowest degree first). */
  datatype Constants<F> = Constants(
    isoA: F,
    isoB: F,
    isoZ: F,
    pMinus9Div16: nat,
    eighthRoots: seq<F>,
    ev1: int,
    ev2: int,
    isoMapCoefficients: seq<seq<F>>)

  // ---------------------------------------------------------------------------
  // Square root of a quotient

  /** The closed-form candidate `u v^7 (u v^15)^((p - 9) / 16)`: a square root
      of `u / v` up to an eighth root of unity when one exists. */
  ghost function SqrtCandidate<F>(R: Field<F>, e: nat, u: F, v: F): F
  {
    var temp1 := R.mul(u, Pow(R, v, 7));
    R.mul(Pow(R, R.mul(temp1, Pow(R, v, 8)), e), temp1)
  }

  /** The check the code makes on a scaled candidate: `(x * c) ** 2 * v - u == 0`. */
  ghost predicate Passes<F>(R: Field<F>, x: F, c: F, u: F, v: F)
  {
    Sub(R, R.mul(Pow(R, R.mul(x, c), 2), v), u) == R.zero
  }

  /** The index of the first entry of `xs` that passes the check with `c`,
      or `|xs|` when none does. */
  ghost function FirstPassing<F>(R: Field<F>, xs: seq<F>, c: F, u: F, v: F): (k: nat)
    ensures k <= |xs|
    ensures k < |xs| ==> Passes(R, xs[k], c, u, v)
    ensures forall j :: 0 <= j < k ==> !Passes(R, xs[j], c, u, v)
  {
    if xs == [] then 0
    else if Passes(R, xs[0], c, u, v) then 0
    else 1 + FirstPassing(R, xs[1..], c, u, v)
  }

  /** sqrt_division_FQ2: scans the eighth roots of unity for one that turns
      the closed-form candidate into a square root of `u / v`. The first
      root that passes wins; later ones never overwrite it. When none passes
      the flag is false and the unscaled candidate comes back. */
  method SqrtDivisionFq2<F(==,!new)>(R: Field<F>, C: Constants<F>, u: F, v: F) returns (validRoot: bool, result: F)
    requires IsCommRing(R)
    ensures var c := SqrtCandidate(R, C.pMinus9Div16, u, v);
            var k := FirstPassing(R, C.eighthRoots, c, u, v);
            && validRoot == (k < |C.eighthRoots|)
            && result == (if validRoot then R.mul(C.eighthRoots[k], c) else c)
    ensures validRoot ==> R.mul(Pow(R, result, 2), v) == u
  {
    var temp1 := R.mul(u, Pow(R, v, 7));
    var temp2 := R.mul(temp1, Pow(R, v, 8));
    var sqrtCandidate := Pow(R, temp2, C.pMinus9Div16);
    sqrtCandidate := R.mul(sqrtCandidate, temp1);
    validRoot := false;
    result := sqrtCandidate;
    var roots := C.eighthRoots;
    ghost var k: nat := 0;
    for i := 0 to |roots|
      invariant !validRoot ==> result == sqrtCandidate
      invariant !validRoot ==> forall j :: 0 <= j < i ==> !Passes(R, roots[j], sqrtCandidate, u, v)
      invariant validRoot ==> k < i && Passes(R, roots[k], sqrtCandidate, u, v)
      invariant validRoot ==> result == R.mul(roots[k], sqrtCandidate)
      invariant validRoot ==> forall j :: 0 <= j < k ==> !Passes(R, roots[j], sqrtCandidate, u, v)
    {
      var scaled := R.mul(roots[i], sqrtCandidate);
      var check := Sub(R, R.mul(Pow(R, scaled, 2), v), u);
      if check == R.zero && !validRoot {
        validRoot := true;
        result := scaled;
        k := i;
      }
    }
    if validRoot {
      SubZeroIff(R, R.mul(Pow(R, result, 2), v), u);
    }
  }

  // ---------------------------------------------------------------------------
  // The eta values

  /** The four positive etas, in the order the fallback scan tries them. */
  ghost function EtaRoots<F>(R: Field<F>, ev1: int, ev2: int): seq<F>
  {
    [R.fromCoeffs(ev1, 0), R.fromCoeffs(0, ev1), R.fromCoeffs(ev2, ev2), R.fromCoeffs(ev2, -ev2)]
  }

  /** positive_eta_roots: builds the list of the four etas by appending. */
  method PositiveEtaRoots<F>(R: Field<F>, ev1: int, ev2: int) returns (roots: seq<F>)
    ensures |roots| == 4
    ensures roots == EtaRoots(R, ev1, ev2)
  {
    roots := [];
    roots := roots + [R.fromCoeffs(ev1, 0)];
    roots := roots + [R.fromCoeffs(0, ev1)];
    roots := roots + [R.fromCoeffs(ev2, ev2)];
    roots := roots + [R.fromCoeffs(ev2, -ev2)];
  }

  // ---------------------------------------------------------------------------
  // The map to E2', step by step

  /** The right-hand side `x^3 + A x z^2 + B z^3` of E2' in projective form. */
  ghost function CurveRhs<F>(R: Field<F>, C: Constants<F>, x: F, z: F): F
  {
    R.add(R.add(Pow(R, x, 3), R.mul(R.mul(C.isoA, x), Pow(R, z, 2))), R.mul(C.isoB, Pow(R, z, 3)))
  }

  /** Every coordinate of `p` multiplied by `f`: the same projective point when `f != 0`. */
  ghost function ScalePoint<F>(R: Field<F>, f: F, p: Point<F>): Point<F>
  {
    Point(R.mul(f, p.x), R.mul(f, p.y), R.mul(f, p.z))
  }

  /** `(x, y, z)` lies on E2': `y^2 z == x^3 + A x z^2 + B z^3`. */
  ghost predicate OnIsoCurve<F>(R: Field<F>, C: Constants<F>, p: Point<F>)
  {
    R.mul(Pow(R, p.y, 2), p.z) == CurveRhs(R, C, p.x, p.z)
  }

  /** `Z t^2`. */
  ghost function Zt2<F>(R: Field<F>, C: Constants<F>, t: F): F
  {
    R.mul(C.isoZ, Pow(R, t, 2))
  }

  /** `Z t^2 + Z^2 t^4`. */
  ghost function Tv<F>(R: Field<F>, C: Constants<F>, t: F): F
  {
    R.add(Zt2(R, C, t), Pow(R, Zt2(R, C, t), 2))
  }

  /** The exceptional case: the computed denominator `-(A (Z t^2 + Z^2 t^4))` is zero. */
  ghost predicate Exceptional<F>(R: Field<F>, C: Constants<F>, t: F)
  {
    R.neg(R.mul(C.isoA, Tv(R, C, t))) == R.zero
  }

  /** The denominator of both candidate x-coordinates: `-(A (Z t^2 + Z^2 t^4))`,
      replaced by `Z A` in the exceptional case. So it is nonzero whenever
      `Z A` is. */
  ghost function Denominator<F>(R: Field<F>, C: Constants<F>, t: F): (d: F)
    ensures !Exceptional(R, C, t) ==> d == R.neg(R.mul(C.isoA, Tv(R, C, t)))
    ensures d != R.neg(R.mul(C.isoA, Tv(R, C, t))) ==> d == R.mul(C.isoZ, C.isoA)
    ensures d == R.zero ==> R.mul(C.isoZ, C.isoA) == R.zero
  {
    if Exceptional(R, C, t) then R.mul(C.isoZ, C.isoA) else R.neg(R.mul(C.isoA, Tv(R, C, t)))
  }

  /** The numerator `B (Z t^2 + Z^2 t^4 + 1)` of the first candidate x0. */
  ghost function Numerator0<F>(R: Field<F>, C: Constants<F>, t: F): F
  {
    R.mul(C.isoB, R.add(Tv(R, C, t), R.one))
  }

  /** `v = D^3`. */
  ghost function V<F>(R: Field<F>, C: Constants<F>, t: F): F
  {
    Pow(R, Denominator(R, C, t), 3)
  }

  /** `u = g(x0) v`. */
  ghost function U0<F>(R: Field<F>, C: Constants<F>, t: F): F
  {
    CurveRhs(R, C, Numerator0(R, C, t), Denominator(R, C, t))
  }

  /** `u1 = (Z t^2)^3 u = g(x1) v` for the second candidate `x1 = Z t^2 x0`. */
  ghost function U1<F>(R: Field<F>, C: Constants<F>, t: F): F
  {
    R.mul(Pow(R, Zt2(R, C, t), 3), U0(R, C, t))
  }

  /** Where the scan over the eighth roots stops for `sqrt(u / v)`. */
  ghost function RootIndex<F>(R: Field<F>, C: Constants<F>, t: F): nat
  {
    FirstPassing(R, C.eighthRoots, SqrtCandidate(R, C.pMinus9Div16, U0(R, C, t), V(R, C, t)), U0(R, C, t), V(R, C, t))
  }

  /** `g(x0)` has a square root that the scan finds. */
  ghost predicate PrimarySucceeds<F>(R: Field<F>, C: Constants<F>, t: F)
  {
    RootIndex(R, C, t) < |C.eighthRoots|
  }

  /** What `sqrt_division_FQ2(u, v)` gives back as its value. */
  ghost function Y0<F>(R: Field<F>, C: Constants<F>, t: F): F
  {
    var c := SqrtCandidate(R, C.pMinus9Div16, U0(R, C, t), V(R, C, t));
    if PrimarySucceeds(R, C, t) then R.mul(C.eighthRoots[RootIndex(R, C, t)], c) else c
  }

  /** The second candidate before the eta correction: `y0 t^3`. */
  ghost function Y1Unscaled<F>(R: Field<F>, C: Constants<F>, t: F): F
  {
    R.mul(Y0(R, C, t), Pow(R, t, 3))
  }

  /** Where the scan over the etas stops for `sqrt(u1 / v)`. */
  ghost function EtaIndex<F>(R: Field<F>, C: Constants<F>, t: F): nat
  {
    FirstPassing(R, EtaRoots(R, C.ev1, C.ev2), Y1Unscaled(R, C, t), U1(R, C, t), V(R, C, t))
  }

  /** Some eta turns `y0 t^3` into a square root of `u1 / v`. */
  ghost predicate FallbackSucceeds<F>(R: Field<F>, C: Constants<F>, t: F)
  {
    EtaIndex(R, C, t) < 4
  }

  /** The y-coordinate chosen before the sign is fixed: `y0` when the primary
      root exists, otherwise `y0 t^3 eta` for the first eta that passes. */
  ghost function SelectedY<F>(R: Field<F>, C: Constants<F>, t: F): F
  {
    if PrimarySucceeds(R, C, t) then Y0(R, C, t)
    else if FallbackSucceeds(R, C, t) then R.mul(Y1Unscaled(R, C, t), EtaRoots(R, C.ev1, C.ev2)[EtaIndex(R, C, t)])
    else Y0(R, C, t)
  }

  /** The x-numerator returned: that of x0, or of `x1 = Z t^2 x0` when the
      primary root failed. */
  ghost function SelectedNumerator<F>(R: Field<F>, C: Constants<F>, t: F): F
  {
    if PrimarySucceeds(R, C, t) then Numerator0(R, C, t)
    else R.mul(R.mul(Numerator0(R, C, t), Pow(R, t, 2)), C.isoZ)
  }

  /** `y` or `-y`, whichever the sign test of the code keeps. */
  ghost function SignAligned<F>(R: Field<F>, y: F, t: F): F
  {
    if R.sgn0(t) != R.sgn0(y) then R.neg(y) else y
  }

  /** The sign test makes a nonzero `y` agree with `t` in `sgn0`, and does not
      change `y^2`. */
  lemma SignAlignedMatches<F(!new)>(R: Field<F>, y: F, t: F)
    requires Valid(R)
    ensures SignAligned(R, y, t) != R.zero ==> R.sgn0(SignAligned(R, y, t)) == R.sgn0(t)
    ensures Pow(R, SignAligned(R, y, t), 2) == Pow(R, y, 2)
  {
    SquareOfNeg(R, y);
    if R.sgn0(t) != R.sgn0(y) && R.neg(y) != R.zero {
      NegZero(R);
      assert y != R.zero;
      assert SignFlips(R, y);
    }
  }

  /** An affine `y` with `y^2 D^3 == N^3 + A N D^2 + B D^3` gives the
      projective point `(N, y D, D)` on E2'. */
  lemma ProjectiveFromAffine<F(!new)>(R: Field<F>, C: Constants<F>, n: F, y: F, d: F)
    requires IsCommRing(R)
    requires R.mul(Pow(R, y, 2), Pow(R, d, 3)) == CurveRhs(R, C, n, d)
    ensures OnIsoCurve(R, C, Point(n, R.mul(y, d), d))
  {
    PowTwo(R, R.mul(y, d));
    PowTwo(R, y);
    PowTwo(R, d);
    PowThree(R, d);
    calc {
      R.mul(Pow(R, R.mul(y, d), 2), d);
      R.mul(R.mul(R.mul(y, d), R.mul(y, d)), d);
      == { MulSwapInner(R, y, d, y, d); }
      R.mul(R.mul(R.mul(y, y), R.mul(d, d)), d);
      == { assert MulAssoc(R, R.mul(y, y), R.mul(d, d), d); }
      R.mul(R.mul(y, y), R.mul(R.mul(d, d), d));
      == { assert MulComm(R, R.mul(d, d), d); }
      R.mul(Pow(R, y, 2), Pow(R, d, 3));
    }
  }

  /** When the primary square root exists, the map's output lies on E2'. */
  lemma PrimaryBranchOnCurve<F(!new)>(R: Field<F>, C: Constants<F>, t: F)
    requires Valid(R)
    requires PrimarySucceeds(R, C, t)
    ensures OnIsoCurve(R, C, Point(Numerator0(R, C, t), R.mul(SignAligned(R, Y0(R, C, t), t), Denominator(R, C, t)), Denominator(R, C, t)))
  {
    var c := SqrtCandidate(R, C.pMinus9Div16, U0(R, C, t), V(R, C, t));
    var k := RootIndex(R, C, t);
    assert Passes(R, C.eighthRoots[k], c, U0(R, C, t), V(R, C, t));
    SubZeroIff(R, R.mul(Pow(R, Y0(R, C, t), 2), V(R, C, t)), U0(R, C, t));
    SignAlignedMatches(R, Y0(R, C, t), t);
    ProjectiveFromAffine(R, C, Numerator0(R, C, t), SignAligned(R, Y0(R, C, t), t), Denominator(R, C, t));
  }

  /** `xi (s + 1) - s == xi^3` for `s = xi + xi^2`. */
  lemma XiCube<F(!new)>(R: Field<F>, xi: F)
    requires IsCommRing(R)
    ensures var s := R.add(xi, Pow(R, xi, 2));
            R.add(R.mul(xi, R.add(s, R.one)), R.neg(s)) == Pow(R, xi, 3)
  {
    var x2 := Pow(R, xi, 2);
    var x3 := Pow(R, xi, 3);
    var s := R.add(xi, x2);
    PowTwo(R, xi);
    calc {
      R.mul(xi, R.add(s, R.one));
      == { assert Distrib(R, xi, s, R.one); assert MulOne(R, xi); }
      R.add(R.mul(xi, s), xi);
      == { assert Distrib(R, xi, xi, x2); }
      R.add(R.add(x2, x3), xi);
      == { assert AddComm(R, x2, x3); assert AddAssoc(R, x3, x2, xi); assert AddComm(R, x2, xi); }
      R.add(x3, s);
    }
    assert AddAssoc(R, x3, s, R.neg(s));
    assert AddNeg(R, s);
    assert AddZero(R, x3);
  }

  /** With `d = -(A s)` and `n = B (s + 1)`, both non-cubic terms of the
      curve's right-hand side share the factor `G = A B (A s)^2`:
      `A n d^2 == G (s + 1)` and `B d^3 == -(G s)`. */
  lemma SwuFactor<F(!new)>(R: Field<F>, C: Constants<F>, s: F)
    requires IsCommRing(R)
    ensures var p := R.mul(C.isoA, s);
            var g := R.mul(R.mul(C.isoA, C.isoB), Pow(R, p, 2));
            var n := R.mul(C.isoB, R.add(s, R.one));
            var d := R.neg(p);
            && R.mul(R.mul(C.isoA, n), Pow(R, d, 2)) == R.mul(g, R.add(s, R.one))
            && R.mul(C.isoB, Pow(R, d, 3)) == R.neg(R.mul(g, s))
  {
    var a, b := C.isoA, C.isoB;
    var p := R.mul(a, s);
    var p2 := Pow(R, p, 2);
    var ab := R.mul(a, b);
    var g := R.mul(ab, p2);
    var s1 := R.add(s, R.one);
    var d := R.neg(p);
    SquareOfNeg(R, p);
    calc {
      R.mul(R.mul(a, R.mul(b, s1)), Pow(R, d, 2));
      == { assert MulAssoc(R, a, b, s1); }
      R.mul(R.mul(ab, s1), p2);
      == { assert MulAssoc(R, ab, s1, p2); assert MulComm(R, s1, p2); assert MulAssoc(R, ab, p2, s1); }
      R.mul(g, s1);
    }
    calc {
      R.mul(b, Pow(R, d, 3));
      R.mul(b, R.mul(d, p2));
      == { assert MulComm(R, d, p2); MulNeg(R, p2, p); }
      R.mul(b, R.neg(R.mul(p2, p)));
      == { MulNeg(R, b, R.mul(p2, p)); }
      R.neg(R.mul(b, R.mul(p2, p)));
      == { assert MulAssoc(R, p2, a, s); }
      R.neg(R.mul(b, R.mul(R.mul(p2, a), s)));
      == { assert MulAssoc(R, b, R.mul(p2, a), s); }
      R.neg(R.mul(R.mul(b, R.mul(p2, a)), s));
      == { assert MulComm(R, p2, a); assert MulAssoc(R, b, a, p2); assert MulComm(R, b, a); }
      R.neg(R.mul(g, s));
    }
  }

  /** The identity behind the fallback branch: for `s = xi + xi^2`,
      `x0 = n / d` with `n = B (s + 1)` and `d = -(A s)`, the second candidate
      `x1 = xi x0` has `g(x1) d^3 == xi^3 g(x0) d^3`. */
  lemma SwuIdentity<F(!new)>(R: Field<F>, C: Constants<F>, xi: F)
    requires IsCommRing(R)
    ensures var s := R.add(xi, Pow(R, xi, 2));
            var n := R.mul(C.isoB, R.add(s, R.one));
            var d := R.neg(R.mul(C.isoA, s));
            CurveRhs(R, C, R.mul(xi, n), d) == R.mul(Pow(R, xi, 3), CurveRhs(R, C, n, d))
  {
    var a, b := C.isoA, C.isoB;
    var s := R.add(xi, Pow(R, xi, 2));
    var s1 := R.add(s, R.one);
    var n := R.mul(b, s1);
    var d := R.neg(R.mul(a, s));
    var g := R.mul(R.mul(a, b), Pow(R, R.mul(a, s), 2));
    var x3 := Pow(R, xi, 3);
    var term := R.mul(R.mul(a, n), Pow(R, d, 2));
    var tail := R.mul(b, Pow(R, d, 3));
    SwuFactor(R, C, s);
    assert term == R.mul(g, s1) && tail == R.neg(R.mul(g, s));
    // the sum of the two non-cubic terms of g(x0) d^3 is G
    assert R.add(term, tail) == g by {
      MulNeg(R, g, s);
      assert Distrib(R, g, s1, R.neg(s));
      assert AddComm(R, s, R.one);
      assert AddAssoc(R, R.one, s, R.neg(s));
      assert AddNeg(R, s);
      assert AddZero(R, R.one);
      assert MulOne(R, g);
    }
    // and for g(x1) d^3 it is xi^3 G
    assert R.add(R.mul(xi, term), tail) == R.mul(x3, g) by {
      assert MulAssoc(R, xi, g, s1);
      assert MulComm(R, xi, g);
      assert MulAssoc(R, g, xi, s1);
      MulNeg(R, g, s);
      assert Distrib(R, g, R.mul(xi, s1), R.neg(s));
      XiCube(R, xi);
      assert MulComm(R, g, x3);
    }
    calc {
      CurveRhs(R, C, R.mul(xi, n), d);
      R.add(R.add(Pow(R, R.mul(xi, n), 3), R.mul(R.mul(a, R.mul(xi, n)), Pow(R, d, 2))), tail);
      == { PowMul(R, xi, n, 3);
           assert MulAssoc(R, a, xi, n); assert MulComm(R, a, xi); assert MulAssoc(R, xi, a, n);
           assert MulAssoc(R, xi, R.mul(a, n), Pow(R, d, 2)); }
      R.add(R.add(R.mul(x3, Pow(R, n, 3)), R.mul(xi, term)), tail);
      == { assert AddAssoc(R, R.mul(x3, Pow(R, n, 3)), R.mul(xi, term), tail); }
      R.add(R.mul(x3, Pow(R, n, 3)), R.mul(x3, g));
      == { assert Distrib(R, x3, term, tail); }
      R.add(R.mul(x3, Pow(R, n, 3)), R.mul(x3, R.add(term, tail)));
      == { assert Distrib(R, x3, Pow(R, n, 3), R.add(term, tail)); }
      R.mul(x3, R.add(Pow(R, n, 3), R.add(term, tail)));
      == { assert AddAssoc(R, Pow(R, n, 3), term, tail); }
      R.mul(x3, CurveRhs(R, C, n, d));
    }
  }

  /** Outside the exceptional case the fallback branch lands on E2' as well:
      the code's own check `y^2 v == u1` and the identity above give the
      curve equation for `(x1 numerator, y D, D)`. */
  lemma FallbackBranchOnCurve<F(!new)>(R: Field<F>, C: Constants<F>, t: F)
    requires Valid(R)
    requires !PrimarySucceeds(R, C, t) && FallbackSucceeds(R, C, t)
    requires !Exceptional(R, C, t)
    ensures OnIsoCurve(R, C, Point(SelectedNumerator(R, C, t),
                                   R.mul(SignAligned(R, SelectedY(R, C, t), t), Denominator(R, C, t)),
                                   Denominator(R, C, t)))
  {
    var xi := Zt2(R, C, t);
    var n0 := Numerator0(R, C, t);
    var t2 := Pow(R, t, 2);
    var y := SignAligned(R, SelectedY(R, C, t), t);
    assert SelectedNumerator(R, C, t) == R.mul(xi, n0) by {
      assert MulAssoc(R, n0, t2, C.isoZ);
      assert MulComm(R, t2, C.isoZ);
      assert MulComm(R, n0, xi);
    }
    SwuIdentity(R, C, xi);
    SelectedYSquare(R, C, t);
    SignAlignedMatches(R, SelectedY(R, C, t), t);
    ProjectiveFromAffine(R, C, SelectedNumerator(R, C, t), y, Denominator(R, C, t));
  }

  /** The chosen y-coordinate is a square root of `u / v` on the primary
      branch and of `u1 / v` on the fallback branch. */
  lemma SelectedYSquare<F(!new)>(R: Field<F>, C: Constants<F>, t: F)
    requires IsCommRing(R)
    requires PrimarySucceeds(R, C, t) || FallbackSucceeds(R, C, t)
    ensures R.mul(Pow(R, SelectedY(R, C, t), 2), V(R, C, t))
         == if PrimarySucceeds(R, C, t) then U0(R, C, t) else U1(R, C, t)
  {
    if PrimarySucceeds(R, C, t) {
      var c := SqrtCandidate(R, C.pMinus9Div16, U0(R, C, t), V(R, C, t));
      assert Passes(R, C.eighthRoots[RootIndex(R, C, t)], c, U0(R, C, t), V(R, C, t));
      SubZeroIff(R, R.mul(Pow(R, Y0(R, C, t), 2), V(R, C, t)), U0(R, C, t));
    } else {
      var eta := EtaRoots(R, C.ev1, C.ev2)[EtaIndex(R, C, t)];
      assert Passes(R, eta, Y1Unscaled(R, C, t), U1(R, C, t), V(R, C, t));
      assert MulComm(R, eta, Y1Unscaled(R, C, t));
      SubZeroIff(R, R.mul(Pow(R, SelectedY(R, C, t), 2), V(R, C, t)), U1(R, C, t));
    }
  }

  /** optimized_swu_G2: maps `t` to a projective point `(N, Y, D)` of E2'.
      The exception is raised exactly when neither square root is found.
      Otherwise the point is `(N, y D, D)` where `D` is the (possibly
      substituted) denominator, `N` the numerator of x0 or of x1, and `y` the
      chosen square root with its sign matched to that of `t`. The point
      satisfies the curve equation on the primary branch, and on the fallback
      branch unless the denominator was substituted. */
  method OptimizedSwuG2<F(==,!new)>(R: Field<F>, C: Constants<F>, t: F) returns (r: Result<Point<F>>)
    requires Valid(R)
    ensures r.Failure? <==> !PrimarySucceeds(R, C, t) && !FallbackSucceeds(R, C, t)
    ensures r.Failure? ==> r.error == SwuFailure
    ensures r.Success? ==> r.value == Point(SelectedNumerator(R, C, t),
                                            R.mul(SignAligned(R, SelectedY(R, C, t), t), Denominator(R, C, t)),
                                            Denominator(R, C, t))
    ensures PrimarySucceeds(R, C, t) ==> r.Success? && r.value.x == Numerator0(R, C, t)
    ensures r.Success? && (PrimarySucceeds(R, C, t) || !Exceptional(R, C, t)) ==> OnIsoCurve(R, C, r.value)
    ensures r.Success? ==> R.mul(Pow(R, SignAligned(R, SelectedY(R, C, t), t), 2), V(R, C, t))
                           == if PrimarySucceeds(R, C, t) then U0(R, C, t) else U1(R, C, t)
    ensures r.Success? && SignAligned(R, SelectedY(R, C, t), t) != R.zero
            ==> R.sgn0(SignAligned(R, SelectedY(R, C, t), t)) == R.sgn0(t)
    ensures r.Success? && R.mul(C.isoZ, C.isoA) != R.zero ==> r.value.z != R.zero
  {
    var t2 := Pow(R, t, 2);
    var temp := R.mul(C.isoZ, t2);
    temp := R.add(temp, Pow(R, temp, 2));
    var denominator := R.neg(R.mul(C.isoA, temp));
    temp := R.add(temp, R.one);
    var numerator := R.mul(C.isoB, temp);

    // Exceptional case
    if denominator == R.zero {
      denominator := R.mul(C.isoZ, C.isoA);
    }
    assert denominator == Denominator(R, C, t);

    var v := Pow(R, denominator, 3);
    var u := R.add(R.add(Pow(R, numerator, 3), R.mul(R.mul(C.isoA, numerator), Pow(R, denominator, 2))), R.mul(C.isoB, v));
    assert u == U0(R, C, t);

    var success, sqrtCandidate := SqrtDivisionFq2(R, C, u, v);
    var y := sqrtCandidate;
    assert success == PrimarySucceeds(R, C, t) && y == Y0(R, C, t);

    sqrtCandidate := R.mul(sqrtCandidate, Pow(R, t, 3));
    u := R.mul(Pow(R, R.mul(C.isoZ, t2), 3), u);
    var success2 := false;
    var etas := PositiveEtaRoots(R, C.ev1, C.ev2);
    ghost var k: nat := 0;
    for i := 0 to |etas|
      invariant success ==> !success2 && y == Y0(R, C, t)
      invariant !success && !success2 ==> i <= 3 && y == Y0(R, C, t)
      invariant !success && !success2 ==> forall j :: 0 <= j < i ==> !Passes(R, etas[j], sqrtCandidate, u, v)
      invariant success2 ==> !success && k < i && Passes(R, etas[k], sqrtCandidate, u, v)
      invariant success2 ==> y == R.mul(sqrtCandidate, etas[k])
      invariant success2 ==> forall j :: 0 <= j < k ==> !Passes(R, etas[j], sqrtCandidate, u, v)
    {
      var temp1 := R.mul(etas[i], sqrtCandidate);
      temp1 := Sub(R, R.mul(Pow(R, temp1, 2), v), u);
      if temp1 == R.zero && !success && !success2 {
        y := R.mul(sqrtCandidate, etas[i]);
        success2 := true;
        k := i;
      } else if i == 3 && !success && !success2 {
        // Unreachable
        assert EtaIndex(R, C, t) == 4;
        return Failure(SwuFailure);
      }
    }
    assert y == SelectedY(R, C, t);

    if !success {
      numerator := R.mul(R.mul(numerator, t2), C.isoZ);
    }

    if R.sgn0(t) != R.sgn0(y) {
      y := R.neg(y);
    }

    y := R.mul(y, denominator);

    r := Success(Point(numerator, y, denominator));

    if success {
      PrimaryBranchOnCurve(R, C, t);
    } else if !Exceptional(R, C, t) {
      FallbackBranchOnCurve(R, C, t);
    }
    SelectedYSquare(R, C, t);
    SignAlignedMatches(R, SelectedY(R, C, t), t);
  }

  // ---------------------------------------------------------------------------
  // The 3-isogeny from E2' to the twist curve

  /** The coefficient lists have the shape of the isogeny's constant: four
      lists of one to four coefficients each. */
  ghost predicate WellShaped<F>(cs: seq<seq<F>>)
  {
    |cs| == 4 && forall i :: 0 <= i < 4 ==> 1 <= |cs[i]| <= 4
  }

  /** The term `k[m] x^m z^(d - m)` of the polynomial with coefficients `k`,
      of degree `d = |k| - 1`, homogenised by `z`. */
  ghost function HomTerm<F>(R: Field<F>, k: seq<F>, x: F, z: F, m: nat): F
    requires m < |k|
  {
    R.mul(R.mul(k[m], Pow(R, x, m)), Pow(R, z, |k| - 1 - m))
  }

  /** The sum of the first `n` homogenised terms. */
  ghost function HomPartialSum<F>(R: Field<F>, k: seq<F>, x: F, z: F, n: nat): F
    requires n <= |k|
  {
    if n == 0 then R.zero else R.add(HomPartialSum(R, k, x, z, n - 1), HomTerm(R, k, x, z, n - 1))
  }

  /** `sum_{m <= d} k[m] x^m z^(d - m)`. */
  ghost function HomEval<F>(R: Field<F>, k: seq<F>, x: F, z: F): F
  {
    HomPartialSum(R, k, x, z, |k|)
  }

  /** Horner's rule starts from the leading coefficient. */
  lemma HornerStart<F(!new)>(R: Field<F>, k: seq<F>, x: F, z: F)
    requires IsCommRing(R)
    requires 1 <= |k|
    ensures R.add(R.mul(k[|k| - 1], Pow(R, x, |k| - 1)), HomPartialSum(R, k, x, z, |k| - 1)) == HomEval(R, k, x, z)
  {
    var d := |k| - 1;
    assert HomTerm(R, k, x, z, d) == R.mul(k[d], Pow(R, x, d)) by {
      assert MulOne(R, R.mul(k[d], Pow(R, x, d)));
    }
    assert AddComm(R, R.mul(k[d], Pow(R, x, d)), HomPartialSum(R, k, x, z, d));
  }

  /** One step `acc * x + z^(d - lo + 1) * k[lo - 1]` of Horner's rule keeps
      `acc x^lo + (sum of the terms below lo)` equal to the whole sum. */
  lemma HornerStep<F(!new)>(R: Field<F>, k: seq<F>, x: F, z: F, acc: F, lo: nat)
    requires IsCommRing(R)
    requires 1 <= lo < |k|
    requires R.add(R.mul(acc, Pow(R, x, lo)), HomPartialSum(R, k, x, z, lo)) == HomEval(R, k, x, z)
    ensures R.add(R.mul(R.add(R.mul(acc, x), R.mul(Pow(R, z, |k| - lo), k[lo - 1])), Pow(R, x, lo - 1)),
                  HomPartialSum(R, k, x, z, lo - 1))
            == HomEval(R, k, x, z)
  {
    var p := Pow(R, x, lo - 1);
    var zp := Pow(R, z, |k| - lo);
    var c := k[lo - 1];
    var a1 := R.mul(acc, x);
    var a2 := R.mul(zp, c);
    var s := HomPartialSum(R, k, x, z, lo - 1);
    var term := HomTerm(R, k, x, z, lo - 1);
    var top := R.mul(acc, Pow(R, x, lo));
    calc {
      R.mul(R.add(a1, a2), p);
      == { assert MulComm(R, R.add(a1, a2), p); }
      R.mul(p, R.add(a1, a2));
      == { assert Distrib(R, p, a1, a2); }
      R.add(R.mul(p, a1), R.mul(p, a2));
      == { assert MulComm(R, p, a1); assert MulAssoc(R, acc, x, p); }
      R.add(top, R.mul(p, a2));
      == { assert MulComm(R, zp, c); assert MulAssoc(R, p, c, zp); assert MulComm(R, p, c); }
      R.add(top, term);
    }
    calc {
      R.add(R.add(top, term), s);
      == { assert AddAssoc(R, top, term, s); }
      R.add(top, R.add(term, s));
      == { assert AddComm(R, term, s); }
      R.add(top, HomPartialSum(R, k, x, z, lo));
    }
  }

  /** Horner's rule ends with the whole sum in the accumulator. */
  lemma HornerEnd<F(!new)>(R: Field<F>, k: seq<F>, x: F, z: F, acc: F)
    requires IsCommRing(R)
    requires R.add(R.mul(acc, Pow(R, x, 0)), HomPartialSum(R, k, x, z, 0)) == HomEval(R, k, x, z)
    ensures acc == HomEval(R, k, x, z)
  {
    assert MulOne(R, acc);
    assert AddZero(R, acc);
  }

  /** The inner loop of iso_map_G2: Horner's rule on one coefficient list `k`,
      starting from its last entry and folding in the others from the top
      down, each weighted by the next power of `z` (`zPowers[j] == z^(j + 1)`).
      The result is the homogenised polynomial `sum_m k[m] x^m z^(d - m)`. */
  method HornerEval<F(!new)>(R: Field<F>, k: seq<F>, x: F, z: F, zPowers: seq<F>) returns (acc: F)
    requires IsCommRing(R)
    requires 1 <= |k| <= |zPowers| + 1
    requires forall j :: 0 <= j < |zPowers| ==> zPowers[j] == Pow(R, z, j + 1)
    ensures acc == HomEval(R, k, x, z)
  {
    acc := k[|k| - 1];
    HornerStart(R, k, x, z);
    // the j-th entry of the reversed list k[..|k| - 1] is k[|k| - 2 - j]
    for j := 0 to |k| - 1
      invariant R.add(R.mul(acc, Pow(R, x, |k| - 1 - j)), HomPartialSum(R, k, x, z, |k| - 1 - j)) == HomEval(R, k, x, z)
    {
      HornerStep(R, k, x, z, acc, |k| - 1 - j);
      acc := R.add(R.mul(acc, x), R.mul(zPowers[j], k[|k| - 2 - j]));
    }
    HornerEnd(R, k, x, z, acc);
  }

  /** Each homogenised term scales by `lam^d` when `x` and `z` scale by `lam`. */
  lemma HomTermScaling<F(!new)>(R: Field<F>, k: seq<F>, x: F, z: F, lam: F, m: nat)
    requires IsCommRing(R)
    requires m < |k|
    ensures HomTerm(R, k, R.mul(lam, x), R.mul(lam, z), m) == R.mul(Pow(R, lam, |k| - 1), HomTerm(R, k, x, z, m))
  {
    var r := |k| - 1 - m;
    var lm, lr := Pow(R, lam, m), Pow(R, lam, r);
    var xm, zr := Pow(R, x, m), Pow(R, z, r);
    calc {
      HomTerm(R, k, R.mul(lam, x), R.mul(lam, z), m);
      R.mul(R.mul(k[m], Pow(R, R.mul(lam, x), m)), Pow(R, R.mul(lam, z), r));
      == { PowMul(R, lam, x, m); PowMul(R, lam, z, r); }
      R.mul(R.mul(k[m], R.mul(lm, xm)), R.mul(lr, zr));
      == { assert MulAssoc(R, k[m], lm, xm); assert MulComm(R, k[m], lm); assert MulAssoc(R, lm, k[m], xm); }
      R.mul(R.mul(lm, R.mul(k[m], xm)), R.mul(lr, zr));
      == { MulSwapInner(R, lm, R.mul(k[m], xm), lr, zr); }
      R.mul(R.mul(lm, lr), HomTerm(R, k, x, z, m));
      == { PowAdd(R, lam, m, r); assert m + r == |k| - 1; }
      R.mul(Pow(R, lam, |k| - 1), HomTerm(R, k, x, z, m));
    }
  }

  /** Homogenisation makes the evaluation projective: scaling `x` and `z`
      by `lam` scales the value by `lam^d`. */
  lemma {:induction false} HomPartialSumScaling<F(!new)>(R: Field<F>, k: seq<F>, x: F, z: F, lam: F, n: nat)
    requires IsCommRing(R)
    requires 1 <= |k| && n <= |k|
    ensures HomPartialSum(R, k, R.mul(lam, x), R.mul(lam, z), n)
         == R.mul(Pow(R, lam, |k| - 1), HomPartialSum(R, k, x, z, n))
  {
    if n == 0 {
      MulZero(R, Pow(R, lam, |k| - 1));
    } else {
      var m := n - 1;
      HomTermScaling(R, k, x, z, lam, m);
      HomPartialSumScaling(R, k, x, z, lam, m);
      HomPartialSumScalingStep(R, k, x, z, lam, n);
    }
  }

  /** The inductive step of the scaling: the sum of the first `n` terms
      scales by `lam^d` when the sum of the first `n - 1` and the last term do. */
  lemma HomPartialSumScalingStep<F(!new)>(R: Field<F>, k: seq<F>, x: F, z: F, lam: F, n: nat)
    requires IsCommRing(R)
    requires 1 <= n <= |k|
    requires HomPartialSum(R, k, R.mul(lam, x), R.mul(lam, z), n - 1) == R.mul(Pow(R, lam, |k| - 1), HomPartialSum(R, k, x, z, n - 1))
    requires HomTerm(R, k, R.mul(lam, x), R.mul(lam, z), n - 1) == R.mul(Pow(R, lam, |k| - 1), HomTerm(R, k, x, z, n - 1))
    ensures HomPartialSum(R, k, R.mul(lam, x), R.mul(lam, z), n)
         == R.mul(Pow(R, lam, |k| - 1), HomPartialSum(R, k, x, z, n))
  {
    SumScaling(R, Pow(R, lam, |k| - 1), HomPartialSum(R, k, x, z, n - 1), HomTerm(R, k, x, z, n - 1));
  }

  /** Scaling distributes over a sum: `l s + l t == l (s + t)`. */
  lemma SumScaling<F(!new)>(R: Field<F>, l: F, s: F, t: F)
    requires IsCommRing(R)
    ensures R.add(R.mul(l, s), R.mul(l, t)) == R.mul(l, R.add(s, t))
  {
    assert Distrib(R, l, s, t);
  }

  /** Scaling `x` and `z` by `lam` scales the homogenised polynomial by `lam^d`. */
  lemma HomEvalScaling<F(!new)>(R: Field<F>, k: seq<F>, x: F, z: F, lam: F)
    requires IsCommRing(R)
    requires 1 <= |k|
    ensures HomEval(R, k, R.mul(lam, x), R.mul(lam, z)) == R.mul(Pow(R, lam, |k| - 1), HomEval(R, k, x, z))
  {
    HomPartialSumScaling(R, k, x, z, lam, |k|);
  }

  /** The cross-multiplied assembly of the isogeny's image scales by
      `lx ly lam` when both x-polynomials scale by `lx`, both y-polynomials by
      `ly`, and `y`, `z` by `lam`. */
  lemma AssemblyScaling<F(!new)>(R: Field<F>, xNum: F, xDen: F, yNum: F, yDen: F, y: F, z: F, lam: F, lx: F, ly: F)
    requires IsCommRing(R)
    ensures Assemble(R, R.mul(lx, xNum), R.mul(lx, xDen), R.mul(ly, yNum), R.mul(ly, yDen), R.mul(lam, y), R.mul(lam, z))
         == ScalePoint(R, R.mul(lx, R.mul(ly, lam)), Assemble(R, xNum, xDen, yNum, yDen, y, z))
  {
    var ly1 := R.mul(ly, lam);
    MulSwapInner(R, ly, yNum, lam, y);
    MulSwapInner(R, ly, yDen, lam, z);
    MulSwapInner(R, lx, xNum, ly1, R.mul(yDen, z));
    MulSwapInner(R, lx, xDen, ly1, R.mul(yNum, y));
    MulSwapInner(R, lx, xDen, ly1, R.mul(yDen, z));
  }

  /** The projective point the isogeny assembles from the four homogenised
      polynomials: `(xNum yDen', yNum' xDen, xDen yDen')` with
      `yNum' = yNum y` and `yDen' = yDen z`. */
  ghost function IsoMapOf<F>(R: Field<F>, C: Constants<F>, x: F, y: F, z: F): Point<F>
    requires |C.isoMapCoefficients| == 4
  {
    var cs := C.isoMapCoefficients;
    Assemble(R, HomEval(R, cs[0], x, z), HomEval(R, cs[1], x, z), HomEval(R, cs[2], x, z), HomEval(R, cs[3], x, z), y, z)
  }

  /** Cross-multiplication of the four polynomial values into one projective
      point, after `yNum' = yNum y` and `yDen' = yDen z`. */
  ghost function Assemble<F>(R: Field<F>, xNum: F, xDen: F, yNum: F, yDen: F, y: F, z: F): Point<F>
  {
    var yNum' := R.mul(yNum, y);
    var yDen' := R.mul(yDen, z);
    Point(R.mul(xNum, yDen'), R.mul(xDen, yNum'), R.mul(xDen, yDen'))
  }

  /** iso_map_G2: evaluates the four polynomials of the isogeny at `(x, z)`
      by Horner's rule, homogenised by the powers of `z`, and assembles the
      image point by cross-multiplication. */
  method IsoMapG2<F(!new)>(R: Field<F>, C: Constants<F>, x: F, y: F, z: F) returns (p: Point<F>)
    requires IsCommRing(R)
    requires WellShaped(C.isoMapCoefficients)
    ensures p == IsoMapOf(R, C, x, y, z)
  {
    // x-numerator, x-denominator, y-numerator, y-denominator
    var mappedValues := [R.zero, R.zero, R.zero, R.zero];
    var zPowers := [z, Pow(R, z, 2), Pow(R, z, 3)];
    PowOne(R, z);
    assert forall j :: 0 <= j < 3 ==> zPowers[j] == Pow(R, z, j + 1);

    // Horner Polynomial Evaluation
    var coefficients := C.isoMapCoefficients;
    for i := 0 to |coefficients|
      invariant |mappedValues| == 4
      invariant forall m :: 0 <= m < i ==> mappedValues[m] == HomEval(R, coefficients[m], x, z)
    {
      var value := HornerEval(R, coefficients[i], x, z, zPowers);
      mappedValues := mappedValues[i := value];
    }

    mappedValues := mappedValues[2 := R.mul(mappedValues[2], y)];  // y-numerator * y
    mappedValues := mappedValues[3 := R.mul(mappedValues[3], z)];  // y-denominator * z

    var zG2 := R.mul(mappedValues[1], mappedValues[3]);  // x-denominator * y-denominator
    var xG2 := R.mul(mappedValues[0], mappedValues[3]);  // x-numerator * y-denominator
    var yG2 := R.mul(mappedValues[1], mappedValues[2]);  // y-numerator * x-denominator

    p := Point(xG2, yG2, zG2);
  }

  /** The image point has the affine coordinates the isogeny's rational maps
      prescribe, stated without division: `X / Z == xNum / xDen` and
      `Y / Z == y yNum / (z yDen)`. */
  lemma IsoMapCrossRatios<F(!new)>(R: Field<F>, C: Constants<F>, x: F, y: F, z: F)
    requires IsCommRing(R)
    requires |C.isoMapCoefficients| == 4
    ensures var cs := C.isoMapCoefficients;
            var p := IsoMapOf(R, C, x, y, z);
            var xNum := HomEval(R, cs[0], x, z);
            var xDen := HomEval(R, cs[1], x, z);
            var yNum := HomEval(R, cs[2], x, z);
            var yDen := HomEval(R, cs[3], x, z);
            && R.mul(p.x, xDen) == R.mul(xNum, p.z)
            && R.mul(p.y, R.mul(yDen, z)) == R.mul(R.mul(yNum, y), p.z)
  {
    var cs := C.isoMapCoefficients;
    var xNum := HomEval(R, cs[0], x, z);
    var xDen := HomEval(R, cs[1], x, z);
    var yNum := R.mul(HomEval(R, cs[2], x, z), y);
    var yDen := R.mul(HomEval(R, cs[3], x, z), z);
    assert MulAssoc(R, xNum, yDen, xDen);
    assert MulComm(R, yDen, xDen);
    assert MulComm(R, xDen, yNum);
    assert MulAssoc(R, yNum, xDen, yDen);
  }

  /** The image of `(lam x, lam y, lam z)` is the image of `(x, y, z)` with
      every coordinate multiplied by `f`. */
  ghost predicate ImageScales<F>(R: Field<F>, C: Constants<F>, x: F, y: F, z: F, lam: F, f: F)
    requires |C.isoMapCoefficients| == 4
  {
    IsoMapOf(R, C, R.mul(lam, x), R.mul(lam, y), R.mul(lam, z)) == ScalePoint(R, f, IsoMapOf(R, C, x, y, z))
  }

  /** The four polynomial values scale by `lx` (the two x-lists) and `ly`
      (the two y-lists) when `x` and `z` are scaled by `lam`. */
  ghost predicate PolynomialsScale<F>(R: Field<F>, cs: seq<seq<F>>, x: F, z: F, lam: F, lx: F, ly: F)
    requires |cs| == 4
  {
    && HomEval(R, cs[0], R.mul(lam, x), R.mul(lam, z)) == R.mul(lx, HomEval(R, cs[0], x, z))
    && HomEval(R, cs[1], R.mul(lam, x), R.mul(lam, z)) == R.mul(lx, HomEval(R, cs[1], x, z))
    && HomEval(R, cs[2], R.mul(lam, x), R.mul(lam, z)) == R.mul(ly, HomEval(R, cs[2], x, z))
    && HomEval(R, cs[3], R.mul(lam, x), R.mul(lam, z)) == R.mul(ly, HomEval(R, cs[3], x, z))
  }

  /** When the x-lists share one length and the y-lists another, the
      polynomials scale by `lam^dx` and `lam^dy`. */
  lemma PolynomialsScaleByDegree<F(!new)>(R: Field<F>, cs: seq<seq<F>>, x: F, z: F, lam: F, lx: F, ly: F)
    requires IsCommRing(R)
    requires |cs| == 4
    requires 1 <= |cs[0]| == |cs[1]|
    requires 1 <= |cs[2]| == |cs[3]|
    requires lx == Pow(R, lam, |cs[0]| - 1)
    requires ly == Pow(R, lam, |cs[2]| - 1)
    ensures PolynomialsScale(R, cs, x, z, lam, lx, ly)
  {
    var sx, sz := R.mul(lam, x), R.mul(lam, z);
    assert HomEval(R, cs[0], sx, sz) == R.mul(lx, HomEval(R, cs[0], x, z)) by { HomEvalScaling(R, cs[0], x, z, lam); }
    assert HomEval(R, cs[1], sx, sz) == R.mul(lx, HomEval(R, cs[1], x, z)) by { HomEvalScaling(R, cs[1], x, z, lam); }
    assert HomEval(R, cs[2], sx, sz) == R.mul(ly, HomEval(R, cs[2], x, z)) by { HomEvalScaling(R, cs[2], x, z, lam); }
    assert HomEval(R, cs[3], sx, sz) == R.mul(ly, HomEval(R, cs[3], x, z)) by { HomEvalScaling(R, cs[3], x, z, lam); }
  }

  /** The image of the scaled point, once each polynomial value is known to
      scale by `lx` (x-lists) or `ly` (y-lists). */
  lemma IsoMapOfScaled<F(!new)>(R: Field<F>, C: Constants<F>, x: F, y: F, z: F, lam: F, lx: F, ly: F)
    requires IsCommRing(R)
    requires |C.isoMapCoefficients| == 4
    requires PolynomialsScale(R, C.isoMapCoefficients, x, z, lam, lx, ly)
    ensures ImageScales(R, C, x, y, z, lam, R.mul(lx, R.mul(ly, lam)))
  {
    var cs := C.isoMapCoefficients;
    AssemblyScaling(R, HomEval(R, cs[0], x, z), HomEval(R, cs[1], x, z), HomEval(R, cs[2], x, z), HomEval(R, cs[3], x, z),
                    y, z, lam, lx, ly);
  }

  /** The isogeny respects projective equivalence: when the two x-lists share
      one length and the two y-lists another, the image of `(lam x, lam y, lam z)`
      is the image of `(x, y, z)` times the common factor `lx (ly lam)`, where
      `lx = lam^dx` and `ly = lam^dy` for the degrees `dx` and `dy`. */
  lemma IsoMapScaling<F(!new)>(R: Field<F>, C: Constants<F>, x: F, y: F, z: F, lam: F, lx: F, ly: F)
    requires IsCommRing(R)
    requires |C.isoMapCoefficients| == 4
    requires 1 <= |C.isoMapCoefficients[0]| == |C.isoMapCoefficients[1]|
    requires 1 <= |C.isoMapCoefficients[2]| == |C.isoMapCoefficients[3]|
    requires lx == Pow(R, lam, |C.isoMapCoefficients[0]| - 1)
    requires ly == Pow(R, lam, |C.isoMapCoefficients[2]| - 1)
    ensures ImageScales(R, C, x, y, z, lam, R.mul(lx, R.mul(ly, lam)))
  {
    PolynomialsScaleByDegree(R, C.isoMapCoefficients, x, z, lam, lx, ly);
    IsoMapOfScaled(R, C, x, y, z, lam, lx, ly);
  }
}
