# Optimized SWU map to G2 of BLS12-381, modelled in Dafny

This project models `py_ecc/optimized_bls12_381/optimized_swu.py`. That file
maps an element `t` of FQ2, the degree-2 extension field of BLS12-381, to a
point of the group G2. The map has two stages:

- the Optimized Simplified SWU map (section 4 of eprint 2019/403; section
  6.6.2 of RFC 9380) sends `t` to a projective point `(N, Y, D)` of the
  3-isogenous curve E2': `y^2 = x^3 + A x + B`;
- the 3-isogeny (appendix E.3 of RFC 9380) sends that point to the twist
  curve that carries G2.

The field is abstract. `Fq2.Field<F>` is a record holding `zero`, `one`,
`add`, `neg`, `mul`, `sgn0` and `fromCoeffs`. `Fq2.Valid` states what the
map assumes of it:

- the commutative ring laws;
- negating a nonzero element flips its `sgn0`.

These assumptions are preconditions, not axioms. `Fq2.IntegerFieldIsValid`
shows that the integers meet them, so they are consistent.

Every constant the file uses is a field of `OptimizedSwu.Constants`: `ISO_3_A`,
`ISO_3_B`, `ISO_3_Z`, `P_MINUS_9_DIV_16`, `POSITIVE_EIGTH_ROOTS_OF_UNITY`,
`EV1`, `EV2` and `ISO_3_MAP_COEFFICIENTS`. The file also imports `SQRT_I`
but never uses it, so it is not modelled.

The file's functions become methods with loops, like the Python:

- `SqrtDivisionFq2` scans the eighth roots of unity behind a "not yet found"
  flag;
- `OptimizedSwuG2` reassigns its locals and scans the etas with a second
  flag and an early exit;
- `HornerEval` and `IsoMapG2` run the nested Horner loops and update the list
  of the four values.

Each method is proved against ghost specification functions (`FirstPassing`,
`Denominator`, `SelectedY`, `SelectedNumerator`, `HomEval`, `IsoMapOf`). The
algebra is proved as lemmas about those functions. The raised exception
becomes `Failure("Hash to Curve - Optimized SWU failure")` of a `Result`.

Two points where the code differs from RFC 9380, and the model follows the code:

- The `sqrt_ratio` routine of RFC 9380 (appendix F.2.1) returns a pair
  `(is_QR, y)`. `sqrt_division_FQ2` also returns a flag and a value, but on
  failure its value is the candidate not multiplied by any root of unity.
  The model keeps that flag and that value.
- RFC 9380 promises a point on E2' only given its choice of `Z`. The code
  guarantees it only through its own square-root checks. The model proves
  the point lies on E2' where those checks imply it (see
  `OptimizedSwu.OptimizedSwuG2`).

## Model

| member | source | states |
|---|---|---|
| `OptimizedSwu.SqrtDivisionFq2` | py_ecc/optimized_bls12_381/optimized_swu.py:79-99 | The flag is true exactly when some eighth root `r` passes `(r c)^2 v - u == 0`, where `c = (u v^15)^e u v^7`. The value is then `r_k c` for the first passing index `k`; later passing roots do not overwrite it. When no root passes, the value is `c` unmultiplied. On success the value `r` satisfies `r^2 v == u`. |
| `OptimizedSwu.FirstPassing` | py_ecc/optimized_bls12_381/optimized_swu.py:91-97 | The index of the first candidate that passes the check, or the list length when none does. Every earlier index fails, and the index it returns passes. |
| `Fq2.SubZeroIff` | py_ecc/optimized_bls12_381/optimized_swu.py:94-95 | The code's test `a - b == 0` holds exactly when `a == b`. |
| `OptimizedSwu.PositiveEtaRoots` | py_ecc/optimized_bls12_381/optimized_swu.py:103-109 | Builds the four etas `[EV1 + 0i, 0 + EV1 i, EV2 + EV2 i, EV2 - EV2 i]`, in the order the fallback scan tries them. |
| `OptimizedSwu.Denominator` | py_ecc/optimized_bls12_381/optimized_swu.py:28-36 | Outside the exceptional case the denominator is `-(A (Z t^2 + Z^2 t^4))`. When that value is zero, it is `Z A` instead. So it is zero only if `Z A` is zero. |
| `OptimizedSwu.OptimizedSwuG2` | py_ecc/optimized_bls12_381/optimized_swu.py:26-73 | Raises exactly when neither the primary root nor any eta passes. Otherwise it returns `(N, y D, D)`, with the fallback `y = y0 t^3 eta_i` for the first passing `i` and the numerator `N t^2 Z`. When the primary root is found, nothing is raised and the numerator is unchanged. The returned `y` satisfies `y^2 v == u`, or `y^2 v == (Z t^2)^3 u` on the fallback branch. A nonzero `y` has `sgn0(y) == sgn0(t)`, and `D != 0` when `Z A != 0`. The point lies on E2' on the primary branch, and on the fallback branch outside the exceptional case. |
| `OptimizedSwu.SelectedYSquare` | py_ecc/optimized_bls12_381/optimized_swu.py:44-60 | The chosen `y` is a square root of `u / v` on the primary branch and of `u1 / v` on the fallback branch, written without division. |
| `OptimizedSwu.SignAlignedMatches` | py_ecc/optimized_bls12_381/optimized_swu.py:68-69 | After the sign test a nonzero `y` has the sign of `t`, and `y^2` is unchanged. |
| `Fq2.SquareOfNeg` | py_ecc/optimized_bls12_381/optimized_swu.py:68-69 | `(-y)^2 == y^2`, so the sign flip keeps the curve equation. |
| `Fq2.NegZero` | py_ecc/optimized_bls12_381/optimized_swu.py:68-69 | `-0 == 0`, so flipping the sign of a zero `y` leaves it zero. |
| `OptimizedSwu.ProjectiveFromAffine` | py_ecc/optimized_bls12_381/optimized_swu.py:71-73 | If `y^2 D^3 == N^3 + A N D^2 + B D^3`, then `(N, y D, D)` satisfies the projective equation `Y^2 D == N^3 + A N D^2 + B D^3`. |
| `OptimizedSwu.PrimaryBranchOnCurve` | py_ecc/optimized_bls12_381/optimized_swu.py:38-45 | When the primary root is found, the returned point lies on E2'. |
| `OptimizedSwu.SwuIdentity` | py_ecc/optimized_bls12_381/optimized_swu.py:48-51 | Let `xi = Z t^2`, and take the numerator and denominator before any substitution. Then `g(xi x0) D^3 == xi^3 g(x0) D^3`. This is why the code may rescale `u` instead of recomputing the cubic. |
| `OptimizedSwu.FallbackBranchOnCurve` | py_ecc/optimized_bls12_381/optimized_swu.py:47-66 | Suppose the fallback branch is taken and the denominator was not substituted. Then the code's own check `y^2 v == u1`, together with the identity above, places `(N t^2 Z, y D, D)` on E2'. |
| `OptimizedSwu.HornerStep` | py_ecc/optimized_bls12_381/optimized_swu.py:122 | One Horner update `acc x + z^j k` keeps `acc x^lo + (terms below lo)` equal to the whole homogenised polynomial. |
| `OptimizedSwu.HornerEval` | py_ecc/optimized_bls12_381/optimized_swu.py:119-122 | For a coefficient list `k` of length `d + 1` with `1 <= d + 1 <= 4`, the inner loop computes `sum_j k[j] x^j z^(d - j)`. |
| `OptimizedSwu.IsoMapG2` | py_ecc/optimized_bls12_381/optimized_swu.py:113-131 | Returns `(xNum yDen', xDen yNum', xDen yDen')`, where `yNum' = yNum y`, `yDen' = yDen z` and each value is its homogenised polynomial at `(x, z)`. |
| `OptimizedSwu.IsoMapCrossRatios` | py_ecc/optimized_bls12_381/optimized_swu.py:124-131 | The image has `X / Z == xNum / xDen` and `Y / Z == y yNum / (z yDen)`, stated without division. |
| `OptimizedSwu.HomEvalScaling` | py_ecc/optimized_bls12_381/optimized_swu.py:116-122 | Homogenisation by powers of `z` makes each polynomial projective: scaling `x` and `z` by `lam` scales its value by `lam^d`. |
| `OptimizedSwu.AssemblyScaling` | py_ecc/optimized_bls12_381/optimized_swu.py:124-129 | Suppose the two x-values scale by `lx`, the two y-values by `ly`, and `y`, `z` by `lam`. Then the cross-multiplied image is the original image with every coordinate multiplied by the one factor `lx ly lam`. |
| `OptimizedSwu.PolynomialsScaleByDegree` | py_ecc/optimized_bls12_381/optimized_swu.py:116-122 | Suppose the two x-lists share a length `dx + 1` and the two y-lists a length `dy + 1`. Then scaling `x` and `z` by `lam` scales both x-polynomials by `lam^dx` and both y-polynomials by `lam^dy`. |
| `OptimizedSwu.IsoMapOfScaled` | py_ecc/optimized_bls12_381/optimized_swu.py:113-131 | If the four polynomials scale by `lx` (x-lists) and `ly` (y-lists), the image of `(lam x, lam y, lam z)` is the image of `(x, y, z)` times `lx ly lam`. |
| `OptimizedSwu.IsoMapScaling` | py_ecc/optimized_bls12_381/optimized_swu.py:113-131 | The isogeny respects projective equivalence. Suppose the x-lists share a length `dx + 1` and the y-lists a length `dy + 1`. Then the image of `(lam x, lam y, lam z)` is the image of `(x, y, z)` with every coordinate multiplied by `lam^dx lam^dy lam`, so the image does not depend on the representative of the input point. |

## Left out

- FQ2 itself is not part of this model. Its modular reduction, the concrete
  `sgn0` rule, `FQ2.one`, `FQ2.zero` and its `**` are all left out, because
  they live in `py_ecc.fields`. The model uses an abstract ring, and `x ** n`
  is n-fold multiplication.
- `x ** P_MINUS_9_DIV_16` is never unfolded. The exponent is a parameter, so
  nothing relies on its value.
- The constants module is not part of this model. `ISO_3_A`, `ISO_3_B`,
  `ISO_3_Z`, `EV1`, `EV2`, the roots of unity and the isogeny coefficients
  are parameters. No property depends on their concrete values.
- OptimizedSwuG2: on the fallback branch, the point is proved to lie on E2'
  only when the denominator was not substituted by `Z A`. With the
  substitution, the code's check no longer implies the curve equation. RFC
  9380 relies on `Z` being chosen so that the primary root always exists in
  that case, which is a number-theoretic fact.
- OptimizedSwuG2: the model does not prove that the raise is unreachable.
  That needs field theory (`Z` a non-square, `p = 9 mod 16`), not facts
  about the code. The model does prove exactly when the raise happens.
- IsoMapG2: it requires the shape of the coefficient constant, four lists of
  one to four entries each. With other shapes, Python raises `IndexError`, or
  with fewer than four lists it leaves zeros. Those cases are not modelled,
  because the constant is fixed.
- The model does not prove that the isogeny sends E2' onto the G2 curve.
  That depends on the concrete coefficients.
- Constant-time behaviour and the interoperability test vectors are left
  out. Timing cannot be expressed in the model, and the test vectors need
  the concrete field.
