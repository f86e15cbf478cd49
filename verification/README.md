# Taylor models of MC++ in Dafny

A model of the multivariate Taylor-model engine of MC++ (`MCpp/src/mc/tmodel.hpp`).
A Taylor variable of order `nord` in `nvar` variables is a polynomial. Its
coefficients are stored monomial by monomial, in the order of the
environment's exponent table. Alongside the coefficients it keeps one
interval bound per degree block and an interval remainder. The model has two
layers.

- **Index algebra of the environment (`TModel`).** The binomial table
  (`_set_binom`, `_get_binom`) and the block starts `posord` (`_set_posord`),
  including the MAXSIZE limit. Then the exponent table, built degree by
  degree with the successor step `_next_expmon` (`_set_expmon`). Then the
  position of a monomial (`_loc_expmon`) and the product table
  (`_set_prodmon`). Finally the bounds of the scaled variables and of every
  monomial (`_set_bndpow`, `_set_bndmon`).
  - The exponent table is characterised independently: `MonomialRank.Unrank`
    lists each degree block in lexicographic order, and `MonomialRank.Offset`
    ranks a vector inside its block.
  - Lemmas state that the two are inverse to each other and that the
    tables built by the C++ loops are exactly these.
- **Arithmetic on Taylor variables (`TVar`).**
  - The constructors: detached constants and bounds, attached constants and
    bounds, and the seeding of a variable.
  - `+`/`-` with constants, bounds and other variables, including the TMODEL
    error.
  - Negation, scaling, division by a scalar with the DIV error, the product
    with an interval, the product and square of variables, and integer powers.
  - `_update_bndord`, `_center_TM`, `polynomial`, `linear` and `coefmon`.
  - The naive and LSB range bounders.
  - The meaning of a variable is `TaylorVariables.Encloses`: at a point `u`
    of the scaled box, the variable holds the value `v` when `v` minus the
    polynomial's value lies in the remainder. The arithmetic operations have
    lemmas stating that they map enclosed values to enclosed values and keep
    the per-degree bounds consistent with the coefficients; the exceptions
    are listed under "Left out".

The bound type `T` is modelled as closed real intervals with exact
endpoints (`Intervals.Interval`), and floating point is idealised to real
arithmetic. Sums, products and squares of intervals are the exact interval
operations. The integer power is the exact range of x^n over the interval,
as `Op<T>::pow` obtains it from PROFIL's `Power`: the hull of the end
powers for odd n, and a range that starts at 0 for even n when the
interval straddles 0. A variable without an
environment ("detached", `_TM == 0`) is its own constructor:
`Detached(coef0, rem)`. The mutable state of the environment that depends
on the seeded variables (`_bndpow`, `_bndmon`, `_refpoint`, `_scaling`) is
the separate value `TaylorDomain.Domain`, which is passed explicitly.
Environment identity, which the C++ tests by pointer, is the `id` field of
`TaylorEnvironment.Env`.

## Model

| member | source | states |
|---|---|---|
| TmResults.Code | MCpp/src/mc/tmodel.hpp:478-488 | The error codes: none is 0, and exactly DIV, EIGEN and BERNSTEIN are positive. |
| TmResults.CodeInjective | MCpp/src/mc/tmodel.hpp:478-488 | Distinct errors carry distinct codes. |
| Binomials.BinomRow | MCpp/src/mc/tmodel.hpp:1451-1458 | One row of the binomial table holds C(i+1, j) for every column j up to the order. The ratio recurrence divides exactly. |
| Binomials.SetBinom | MCpp/src/mc/tmodel.hpp:1446-1460 | The whole table holds C(i+1, j) in row i, column j, for rows 0 .. nvar+nord-2. |
| Binomials.GetBinom | MCpp/src/mc/tmodel.hpp:1479-1489 | Within the source's assertions, the lookup returns C(n, k), including C(0, k) answered without the table. |
| Binomials.HockeyStick | MCpp/src/mc/tmodel.hpp:1271-1287 | The sum of C(m+e, e) over e = 0..d is C(m+1+d, d). This identity links the block starts to the block sizes. |
| TaylorEnvironment.SetPosord | MCpp/src/mc/tmodel.hpp:1271-1287 | Success exactly when the monomial count fits an unsigned int. Then posord[d] is the start of the degree-d block for every d. Otherwise the error is MAXSIZE. |
| MonomialRank.PosordClosed | MCpp/src/mc/tmodel.hpp:1271-1287 | posord[d] = C(nvar-1+d, d-1). In particular nmon = C(nvar+nord, nord). |
| TaylorEnvironment.Size | MCpp/src/mc/tmodel.hpp:1203-1232 | Zero variables give SIZE. Too many monomials give MAXSIZE. Otherwise the result is a valid environment of the requested size with nmon = C(nvar+nord, nord). |
| ExponentSuccessor.NextExpmon | MCpp/src/mc/tmodel.hpp:1321-1337 | When the step succeeds, the result has the same length, degree d, entries up to d, and is lexicographically after the input. |
| ExponentSuccessor.NextExpmonInBlock | MCpp/src/mc/tmodel.hpp:1321-1337 | Inside a degree block, the successor step maps each exponent vector to the next one in lexicographic order. |
| ExponentSuccessor.NextExpmonFromZeros | MCpp/src/mc/tmodel.hpp:1321-1337 | Started from the zero vector, the successor step yields the first vector of the block. |
| TaylorEnvironment.NextRow | MCpp/src/mc/tmodel.hpp:1307-1313 | Each call of `_next_expmon` in the construction loop produces the next table entry of the current block. |
| TaylorEnvironment.ExpmonBlock | MCpp/src/mc/tmodel.hpp:1307-1313 | The loop over one degree produces exactly that block of the exponent table. |
| TaylorEnvironment.SetExpmon | MCpp/src/mc/tmodel.hpp:1300-1319 | The exponent table is every vector of degree 0 .. nord, degree by degree, each block in lexicographic order. |
| MonomialRank.BlockAscending | MCpp/src/mc/tmodel.hpp:86-100 | Each degree block is strictly ascending in lexicographic order. |
| MonomialRank.OffsetUnrank | MCpp/src/mc/tmodel.hpp:1426-1444 | Ranking the vector at position i of a block gives back i. |
| MonomialRank.UnrankOffset | MCpp/src/mc/tmodel.hpp:1426-1444 | The rank of a vector lies inside its block, and the vector at that rank is the vector itself. |
| MonomialRank.OffsetOrder | MCpp/src/mc/tmodel.hpp:1426-1444 | Rank order and lexicographic order agree in both directions, and equal ranks mean equal vectors. |
| MonomialRank.TableAtLoc | MCpp/src/mc/tmodel.hpp:1426-1444 | Every vector of degree below the order sits in the table at its location. |
| MonomialRank.LocOfTable | MCpp/src/mc/tmodel.hpp:1426-1444 | The location of table entry p is p. |
| MonomialRank.TableDistinct | MCpp/src/mc/tmodel.hpp:1300-1319 | The exponent table lists each monomial once. |
| MonomialRank.LocBelowPosord | MCpp/src/mc/tmodel.hpp:1426-1444 | A monomial lies before block c exactly when its degree is below c. |
| MonomialRank.LocUnit | MCpp/src/mc/tmodel.hpp:1854-1854 | Variable x_k (from 0) is the monomial at position nvar - k, where seeding puts its coefficient. |
| TaylorEnvironment.LocExpmon | MCpp/src/mc/tmodel.hpp:1426-1444 | For a vector of degree up to the order, the loop returns the position at which the exponent table holds that vector. |
| TaylorEnvironment.SetProdmon | MCpp/src/mc/tmodel.hpp:1382-1424 | Row i of the product table starts with the length of the row, that is, the number of monomials that can be multiplied by monomial i within the order. Entry k+1 is the position of the product of monomials i and k. |
| ProductTable.ProdmonAt | MCpp/src/mc/tmodel.hpp:1382-1424 | In a valid environment, entry k+1 of row i is the location of the sum of the two exponent vectors, which is a position of the table. |
| ProductTable.RowEndDegree | MCpp/src/mc/tmodel.hpp:1382-1424 | Monomial k is inside row i exactly when the two degrees add up to at most the order. |
| TaylorDomain.SetBndpow | MCpp/src/mc/tmodel.hpp:1234-1251 | An index past nvar is INIT. Otherwise only variable ivar is (re)scaled, and every other variable keeps its scaling. |
| TaylorDomain.SeededRange | MCpp/src/mc/tmodel.hpp:1234-1251 | Every point of X, scaled, lies in the recorded range of the variable. |
| Intervals.IPowContains | MCpp/src/mc/mcprofil.hpp:43 | The n-th power of every member of an interval lies in its interval power. |
| Intervals.IPowTight | MCpp/src/mc/mcprofil.hpp:43 | Both ends of the interval power are n-th powers of members of the interval, so the power is the exact range. |
| Intervals.IPowSymmetricSquare | MCpp/src/mc/mcprofil.hpp:43 | The square of [-1, 1] is [0, 1], whereas the product of [-1, 1] with itself is [-1, 1]. |
| TaylorDomain.PowBound | MCpp/src/mc/tmodel.hpp:1246-1248 | `_bndpow[ivar][d]` holds x^d for every x in the scaled range of the variable, and both of its ends are attained there. |
| TaylorDomain.MonBound | MCpp/src/mc/tmodel.hpp:1258-1263 | The running product of the power bounds of the first k variables holds the partial monomial value at every point of the box. |
| TaylorDomain.Bndmon | MCpp/src/mc/tmodel.hpp:1253-1269 | `_bndmon[i]` holds the value of monomial i at every point of the box. |
| TaylorDomain.BndmonContains | MCpp/src/mc/tmodel.hpp:1253-1269 | The bound of monomial i holds the value of monomial i at every point of the box. |
| TaylorVariables.UpdateBndord | MCpp/src/mc/tmodel.hpp:1918-1929 | Coefficients and remainder are unchanged, and the block bounds become consistent and sound. |
| TaylorVariables.ConsistentSound | MCpp/src/mc/tmodel.hpp:1918-1929 | Consistent block bounds hold the value of their block at every point of the box. |
| TaylorVariables.Center | MCpp/src/mc/tmodel.hpp:1931-1938 | The remainder becomes centred on 0 with the same diameter. The non-constant coefficients do not change. |
| TaylorVariables.CenterValue | MCpp/src/mc/tmodel.hpp:1931-1938 | Centring adds the old midpoint of the remainder to the polynomial's value. |
| TaylorVariables.CenterEncloses | MCpp/src/mc/tmodel.hpp:1931-1938 | A centred variable encloses exactly the values the original does. |
| TaylorVariables.CenterIdempotent | MCpp/src/mc/tmodel.hpp:1931-1938 | Centring twice is centring once. |
| TaylorVariables.CenterConsistent | MCpp/src/mc/tmodel.hpp:1931-1938 | Centring keeps the block bounds consistent. |
| TaylorConstruction.FromConst | MCpp/src/mc/tmodel.hpp:1654-1661 | `TVar(d)` encloses exactly d. |
| TaylorConstruction.FromBound | MCpp/src/mc/tmodel.hpp:1690-1697 | `TVar(B)` encloses exactly the members of B. |
| TaylorConstruction.AttachConst | MCpp/src/mc/tmodel.hpp:1674-1688 | Without an environment this is INIT. Otherwise the result encloses exactly d at every point and is consistent. |
| TaylorConstruction.AttachBound | MCpp/src/mc/tmodel.hpp:1710-1722 | Without an environment this is INIT. Otherwise the result encloses exactly the members of B at every point and is consistent. |
| TaylorConstruction.Seed | MCpp/src/mc/tmodel.hpp:1835-1889 | A missing environment or a variable index past nvar is INIT. Otherwise the domain records the new variable, leaves every other variable unchanged, and the new variable's block bounds are sound. |
| TaylorConstruction.SeedEncloses | MCpp/src/mc/tmodel.hpp:1835-1889 | The seeded variable encloses every point p of X at the scaled point of p. |
| TaylorConstruction.SeedPolynomial | MCpp/src/mc/tmodel.hpp:2154-2167 | Seeding x_i when every other variable is already seeded succeeds and leaves every variable seeded; `polynomial(x)` of the result, at any unscaled point, is x[i]. |
| TaylorConstruction.SeedLinear | MCpp/src/mc/tmodel.hpp:2185-2194 | Seeding x_i when every other variable is already seeded succeeds; `linear()` of the result is the i-th unit vector. |
| TaylorConstruction.Polynomial | MCpp/src/mc/tmodel.hpp:2154-2167 | For a detached variable, the constant. Otherwise a value p such that, at the scaled image of x, the variable encloses v exactly when v - p lies in the remainder. |
| TaylorConstruction.Linear | MCpp/src/mc/tmodel.hpp:2185-2194 | None exactly for a detached variable or order 0. Otherwise entry i, times the scaling of variable i, is the coefficient of the monomial x_i. |
| TaylorConstruction.LinearReset | MCpp/src/mc/tmodel.hpp:2196-2204 | The unscaled coefficient of x_ivar. With reset, that coefficient becomes 0 and the bounds stay consistent; without reset, the variable is unchanged. Out-of-range cases give 0. |
| TaylorConstruction.LinearResetValue | MCpp/src/mc/tmodel.hpp:2196-2204 | Resetting removes exactly the linear term of x_ivar from the polynomial's value. |
| TaylorConstruction.CoefMon | MCpp/src/mc/tmodel.hpp:2206-2213 | Up to the order, the coefficient of the monomial with exponents iexp, found where the table holds iexp. Past the order, or for a detached variable, 0. |
| TaylorConstruction.CoefOfTable | MCpp/src/mc/tmodel.hpp:2206-2213 | Asking for the exponents of table entry p gives coefficient p. |
| TaylorArithmetic.AddConst | MCpp/src/mc/tmodel.hpp:2311-2319 | Only the constant changes, by +c. |
| TaylorArithmetic.AddConstSound | MCpp/src/mc/tmodel.hpp:2311-2319 | Adding c maps an enclosed v to an enclosed v + c and keeps consistency. |
| TaylorArithmetic.SubConst | MCpp/src/mc/tmodel.hpp:2421-2429 | Only the constant changes, by -c; attachment, environment, the other coefficients and the remainder are kept. |
| TaylorArithmetic.SubConstSound | MCpp/src/mc/tmodel.hpp:2421-2429 | Subtracting c maps an enclosed v to an enclosed v - c and keeps consistency. |
| TaylorArithmetic.AddBound | MCpp/src/mc/tmodel.hpp:2339-2347 | Without centring, the coefficients are unchanged and the remainder is R + B. |
| TaylorArithmetic.AddBoundSound | MCpp/src/mc/tmodel.hpp:2339-2347 | For v enclosed and w in B, v + w is enclosed, and consistency is kept. |
| TaylorArithmetic.SubBound | MCpp/src/mc/tmodel.hpp:2449-2457 | The non-constant coefficients are kept and the remainder widens by the width of B. Without centring, the constant is kept and the remainder is R - B. |
| TaylorArithmetic.SubBoundSound | MCpp/src/mc/tmodel.hpp:2449-2457 | For v enclosed and w in B, v - w is enclosed, and consistency is kept. |
| TaylorArithmetic.Negate | MCpp/src/mc/tmodel.hpp:2367-2384 | The non-constant coefficients are negated and the remainder keeps its width. Without centring, the constant and the remainder are negated too. |
| TaylorArithmetic.Negated | MCpp/src/mc/tmodel.hpp:2367-2384 | Every coefficient, the constant and the remainder are negated. |
| TaylorArithmetic.NegateInvolution | MCpp/src/mc/tmodel.hpp:2367-2384 | Without centring, negating twice gives the variable back. |
| TaylorArithmetic.NegateSound | MCpp/src/mc/tmodel.hpp:2367-2384 | Negation maps an enclosed v to an enclosed -v and keeps consistency. |
| TaylorArithmetic.ScaleBy | MCpp/src/mc/tmodel.hpp:2568-2582 | Every coefficient and the remainder are multiplied by c. |
| TaylorArithmetic.ScaleBySound | MCpp/src/mc/tmodel.hpp:2568-2582 | Scaling maps an enclosed v to an enclosed c * v and keeps consistency. |
| TaylorArithmetic.DivBy | MCpp/src/mc/tmodel.hpp:2656-2673 | DIV exactly when the divisor is zero. Otherwise the result is the variable scaled by 1/c: every coefficient times c is the old coefficient, and the remainder is scaled by 1/c. |
| TaylorArithmetic.DivBySound | MCpp/src/mc/tmodel.hpp:2656-2673 | For a nonzero c, division maps an enclosed v to an enclosed v / c and keeps consistency. |
| TaylorArithmetic.DivScaleRoundTrip | MCpp/src/mc/tmodel.hpp:2656-2673 | Dividing by c after scaling by a nonzero c gives the variable back. |
| TaylorArithmetic.Sum | MCpp/src/mc/tmodel.hpp:2276-2309 | TMODEL exactly when both operands are attached to different environments. Otherwise the result is attached when either operand is. |
| TaylorArithmetic.SumAttached | MCpp/src/mc/tmodel.hpp:2286-2296 | Coefficients add, remainders add, and the bounds are consistent. |
| TaylorArithmetic.SumSound | MCpp/src/mc/tmodel.hpp:2276-2309 | The sum succeeds, encloses va + vb and keeps consistency. |
| TaylorArithmetic.Difference | MCpp/src/mc/tmodel.hpp:2386-2419 | TMODEL exactly when both operands are attached to different environments. |
| TaylorArithmetic.DifferenceAttached | MCpp/src/mc/tmodel.hpp:2399-2406 | For two operands in one environment, coefficients subtract, the remainder is Ra - Rb, and the bounds are consistent. |
| TaylorArithmetic.DifferenceSound | MCpp/src/mc/tmodel.hpp:2386-2419 | The difference succeeds, encloses va - vb and keeps consistency. |
| TaylorArithmetic.DifferenceUndoesSum | MCpp/src/mc/tmodel.hpp:2276-2419 | (a + b) - b has the coefficients of a. |
| TaylorArithmetic.SumCommutes | MCpp/src/mc/tmodel.hpp:2276-2309 | a + b and b + a agree in coefficients and remainder. |
| TaylorArithmetic.AddDetached | MCpp/src/mc/tmodel.hpp:2280-2284 | Adding a detached c + R changes only the constant, by c, and the remainder, by R. |
| TaylorArithmetic.AddDetachedSound | MCpp/src/mc/tmodel.hpp:2280-2284 | Adding a detached operand that encloses w maps an enclosed v to an enclosed v + w and keeps consistency. |
| TaylorArithmetic.SubDetached | MCpp/src/mc/tmodel.hpp:2390-2394 | Subtracting a detached c + R changes only the constant, by -c, and the remainder, to Rt - R. |
| TaylorArithmetic.SubDetachedSound | MCpp/src/mc/tmodel.hpp:2390-2394 | Subtracting a detached operand that encloses w maps an enclosed v to an enclosed v - w and keeps consistency. |
| ProductCoefficients.MulCoefs | MCpp/src/mc/tmodel.hpp:2497-2502 | The triangular loop over the product table computes, for every monomial m, the truncated-product coefficient: the sum of a_i b_k over every pair of monomials i, k whose product is m. |
| ProductCoefficients.SqrCoefs | MCpp/src/mc/tmodel.hpp:2537-2543 | The square loop, with doubled off-diagonal terms, computes the same coefficients as the product of a with itself. |
| ProductCoefficients.ProductCoefCommutes | MCpp/src/mc/tmodel.hpp:2497-2502 | The reference coefficient is symmetric in the two operands. |
| TaylorProduct.Product | MCpp/src/mc/tmodel.hpp:2486-2526 | TMODEL exactly when both operands are attached to different environments. Otherwise the result is attached when either operand is. |
| TaylorProduct.ProductDetachedSound | MCpp/src/mc/tmodel.hpp:2486-2496 | With one operand detached, the product encloses va * vb and is consistent. |
| TaylorProduct.ProductCommutes | MCpp/src/mc/tmodel.hpp:2486-2526 | a * b and b * a have equal coefficients, and equal remainders whenever the two cross-term intersections meet. |
| TaylorProduct.MulBound | MCpp/src/mc/tmodel.hpp:2602-2621 | Detached: the constant folds into the remainder, which holds (c + x) w for every x in R and w in I. Attached: every non-constant coefficient is multiplied by the midpoint of I. |
| TaylorProduct.MulBoundSound | MCpp/src/mc/tmodel.hpp:2602-2621 | For v enclosed and w in I, the product with I encloses v * w and keeps consistency. |
| TaylorProduct.Square | MCpp/src/mc/tmodel.hpp:2528-2566 | Attached: the non-constant coefficients are those of the reference product of x with itself, and all of them are when the remainder is not centred. Detached (corrected): the constant is c^2 and the remainder holds x (2c + x) for every x in R. |
| TaylorProduct.SquareDetachedSound | MCpp/src/mc/tmodel.hpp:2531-2536 | The square of a detached c + R encloses v^2 for every enclosed v. |
| TaylorProduct.SquareCoefsAsProduct | MCpp/src/mc/tmodel.hpp:2528-2566 | `sqr(x)` has the coefficients of `x * x`. |
| TaylorProduct.IntPow | MCpp/src/mc/tmodel.hpp:2982-2989 | The zeroth power is detached. Higher powers stay in the operand's environment. |
| TaylorProduct.Pow | MCpp/src/mc/tmodel.hpp:2964-2981 | Detached: the result is 0 + R' where R' holds (c + x)^n for every x in R, and when R is proper both ends of R' are such powers. Attached: `pow(x, 1)` keeps the coefficients, and `pow(x, 2)` is `sqr(x)`. |
| TaylorProduct.PowDetachedSound | MCpp/src/mc/tmodel.hpp:2964-2974 | For a detached variable, `pow(x, n)` encloses v^n for every enclosed v. |
| TaylorProduct.PowZero | MCpp/src/mc/tmodel.hpp:2964-2989 | `pow(x, 0)` is detached and encloses exactly 1. |
| TaylorBounds.BoundNaive | MCpp/src/mc/tmodel.hpp:2120-2127 | At every point where the block bounds hold, the naive bound holds every value the variable encloses. |
| TaylorBounds.BoundLsb | MCpp/src/mc/tmodel.hpp:2020-2047 | Below order 2 the LSB bound is the naive bound. At every point of the box where the block bounds hold, it holds every enclosed value: the completed squares of the linear and diagonal quadratic terms and the cross terms are all accounted for. |
| TaylorBounds.QuadraticContains | MCpp/src/mc/tmodel.hpp:2027-2035 | Both branches of the diagonal step, the completed square and the separate bounds, hold a x + q x^2 for x in the monomial's bound. |
| TaylorBounds.Bound | MCpp/src/mc/tmodel.hpp:2129-2152 | For a detached variable the bound is exactly the set of enclosed values. For an attached one it holds every enclosed value at every point of the box where the block bounds hold. |
| TaylorBounds.BoundSound | MCpp/src/mc/tmodel.hpp:2129-2152 | `_bound` holds every enclosed value, for detached variables and for both modelled bounders. |
| QuadraticBlock.OffsetPair | MCpp/src/mc/tmodel.hpp:2027-2040 | Within the degree-2 block, x_a x_b (a <= b) is at offset C(nvar-a, 2) + nvar-1-b. |
| QuadraticBlock.ProdPair | MCpp/src/mc/tmodel.hpp:2027-2040 | `_prodmon(i, k+1)` and `_prodmon(k, i+1)` for linear monomials i <= k are both nvar + C(i, 2) + k, the position of x_(nvar-i) x_(nvar-k). |
| QuadraticBlock.BlockTwoByRows | MCpp/src/mc/tmodel.hpp:2027-2040 | The degree-2 block sum equals the diagonal terms plus the cross terms the LSB loop visits. |
| TaylorFindings.SetBinomInBounds | MCpp/src/mc/tmodel.hpp:1446-1460 | Every write of `_set_binom` as written lands inside the table exactly when nord >= 1 or nvar = 1. |
| TaylorFindings.GetBinomAsWritten | MCpp/src/mc/tmodel.hpp:1479-1489 | Under its own assertions the lookup reads past the table exactly at n = nvar+nord-1, k = nord+1. |
| TaylorFindings.LookupsAdmitted | MCpp/src/mc/tmodel.hpp:1426-1444 | Every lookup of `_loc_expmon` for a degree up to nord+1 passes the assertions of `_get_binom`. |
| TaylorFindings.PosordReadAsWritten | MCpp/src/mc/tmodel.hpp:1428-1433 | The block start `_loc_expmon` reads first is missing from `_posord` exactly when the degree is nord+2 or more, the degrees the assertion at line 1432 rejects. |
| TaylorFindings.LocPastOrderOverruns | MCpp/src/mc/tmodel.hpp:1426-1444 | A degree-(nord+1) monomial that uses x_0 first looks up (nvar+nord-1, nord+1), which is past the table. |
| TaylorFindings.LookupsWithinOrder | MCpp/src/mc/tmodel.hpp:1426-1444 | Up to the order, every lookup stays within the table's width. |
| TaylorFindings.SetBinomEntry64Exact | MCpp/src/mc/tmodel.hpp:1446-1460 | With 64-bit wrapping, an entry of the ratio loop is still exact as long as every product k C(i+1, k) up to its column fits in 64 bits. |
| TaylorFindings.SetBinomFirstWrap | MCpp/src/mc/tmodel.hpp:1446-1460 | At the first column where that product reaches 2^64, the entry computed with wrapping is below the true binomial coefficient. |
| TaylorFindings.SetBinomWrapCounterexample | MCpp/src/mc/tmodel.hpp:1446-1460 | For nvar = 2 and nord = 62, the wrapped loop gives 10 for C(63, 62), which is 63. |
| TaylorFindings.AddDetachedAsWritten | MCpp/src/mc/tmodel.hpp:2280-2284 | As written, the constant and remainder change but bndord[0] does not. |
| TaylorFindings.AddDetachedStale | MCpp/src/mc/tmodel.hpp:2280-2284 | Adding a nonzero detached constant breaks consistency as written, and keeps it in the corrected version. |
| TaylorFindings.SquareDetachedAsWritten | MCpp/src/mc/tmodel.hpp:2531-2536 | As written, the constant becomes c^2. |
| TaylorFindings.AsWrittenRemainder | MCpp/src/mc/tmodel.hpp:2531-2536 | As written, the remainder holds x (2 + x) for x in R, not x (2c + x). |
| TaylorFindings.SquareDetachedCounterexample | MCpp/src/mc/tmodel.hpp:2531-2536 | For 3 + [1, 1], the square as written misses 16 and the corrected square holds it. |

## Left out

- The transcendental functions (`inv`, `sqrt`, `exp`, `log`, trigonometric and others), the Bernstein, eigenvalue and hybrid bounders, and `_scale`. They lie outside this model.
- `_ext_expmon`, `_ext_posord` and `_ext_binom`, which grow the tables for the Bernstein bounder. They lie outside this model.
- The interval type `T` is real intervals with exact endpoints. The outward rounding of PROFIL (`Pred`, `Succ`) and of floating point is not modelled, and `isequal(x, 0.)` is `x == 0`.
- `PROPAGATE_BNDT`, `INTER_WITH_BNDT` and the bound `_bndT`. The remainder keeps only its shape.
- The FADBAD glue, the converting and copy constructors, `operator<<`, and the option and exception strings. Memory management and the `_TV` aliasing are left out too.
- `TaylorProduct.Product`: for two attached operands, the contract states the error, the attachment and the environment. It states that the coefficients of degree 1 and up are those of the reference product, and with an uncentred remainder all of them. Commutation is `ProductCommutes`. No enclosure is proved for the remainder of two attached operands, that is, that it holds the truncated high-order terms.
- `TaylorProduct.Square`: for an attached variable, only the coefficients are related to the product. The enclosure of the remainder is not proved.
- `TaylorProduct.IntPow`: no enclosure is proved for attached variables, because it rests on the product's enclosure.
- `TaylorProduct.Pow`: negative exponents (`pow(inv(x), -n)`) are not modelled, because `inv` is outside this model.
- `TaylorProduct.MulBound`: for an attached variable, the bound of the variable is `_bound` for the naive and LSB bounders only (`Modelled(opt)`).
- `TaylorConstruction.CoefMon`: for every degree past the order it answers 0. The source instead asserts `ord<_nord+2` (line 1432) and, without assertions, reads past `_posord` for degree nord+2 or more; that path is `TaylorFindings.PosordReadAsWritten`.
- `TaylorEnvironment.Size`: `TM_size` is 64 bits wide, and `_set_binom` can wrap in its ratio step (see Findings). The model's table is exact, so the MAXSIZE decision is made on exact binomial coefficients.
- `TaylorEnvironment.Size`: `_set_bndpow` and `_set_bndmon` run later, per seeded variable, in `TaylorDomain`. The `_TV` scratch variable is not created.

## Findings

| source | as written | input that shows it | evidently intended | confidence | as-written member | corrected member |
|---|---|---|---|---|---|---|
| MCpp/src/mc/tmodel.hpp:1446-1460 | Slot 1 of every row is written, even when the order is 0 and a row has a single slot. | nvar = 2, nord = 0: the table has 1 entry and row 0 writes entries 0 and 1. | Write slot 1 only when nord >= 1. | not executed | TaylorFindings.SetBinomInBounds | Binomials.SetBinom |
| MCpp/src/mc/tmodel.hpp:1426-1489 | `_loc_expmon` accepts degree nord+1, and `_get_binom` accepts column nord+1. `coefmon` relies on them. For degree nord+2 or more only the assertion at line 1432 stops the read past `_posord`. | nvar = 2, nord = 1, exponents (1, 1): `_get_binom(2, 2)` reads entry 4 of a 4-entry table. | Answer 0 for a degree past the order without looking it up. | not executed | TaylorFindings.LocPastOrderOverruns | TaylorConstruction.CoefMon |
| MCpp/src/mc/tmodel.hpp:2280-2284 | `+=` (and `-=`, 2390-2394) with a detached operand changes the constant but not bndord[0]. | An attached x = 0 plus detached 1: the constant is 1 and bndord[0] stays [0, 0]. | Keep bndord[0] equal to the constant. | not executed | TaylorFindings.AddDetachedStale | TaylorArithmetic.AddDetached |
| MCpp/src/mc/tmodel.hpp:2531-2536 | The square of a detached c + R multiplies R by 2 + R. | c = 3, R = [1, 1] stands for 4; the result is 9 + [3, 3] = 12, not 16. | R (2c + R). | not executed | TaylorFindings.SquareDetachedCounterexample | TaylorProduct.Square |
| MCpp/src/mc/tmodel.hpp:1446-1460 | The ratio step `*(p-1) * (i+2-j)/j` multiplies in the 64-bit `TM_size` before dividing, so the product wraps. | nvar = 2, nord = 62: row 62 holds C(63, j) and first wraps at column 29; C(63, 62) comes out as 10 instead of 63, and `_set_posord` reads that entry. | Exact binomial coefficients, or MAXSIZE before they overflow. | not executed | TaylorFindings.SetBinomWrapCounterexample | Binomials.SetBinom |
