# Cantilever beam finite-element model in Dafny

This project models `Beam2d.py`, a script that analyses a cantilever beam
with Euler-Bernoulli beam elements. The beam has length L and is clamped at
x = 0. It carries a point load q at the free end and is divided into N
equal elements. Each of the N + 1 nodes has two degrees of freedom (DOFs):
transverse displacement at global index 2·node and rotation at
2·node + 1.

The script works in these steps:

- It builds the 4×4 element stiffness matrix.
- It adds that matrix into a zero global matrix of size 2(N+1) at each
  element's DOFs, using nested loops that update the matrix in place.
- It builds the load vector, which holds -q at the tip's transverse DOF.
- It removes the clamped DOFs 0 and 1.
- It solves the reduced system.
- It scatters the solution back into a zero displacement vector.
- It reads off the deflection profile and compares the tip with q L³/(3EI).

Entries are Dafny `real`s. The script's module constants (E, I, L, q, N)
become parameters.

Modules:

- `Matrices`: vectors and matrices as nested sequences. Holds the inner
  product, the matrix-vector product, the trace, and the linearity and
  splitting laws of the inner product.
- `Stiffness`: `element_stiffness`.
- `Assembly`: the DOF map and the assembly loop.
  - The loop is an `array2` method. It is proved against a specification
    function: `GlobalEntry` sums every `ke[a][b]` that the loops add to an
    entry.
  - The load vector is an `array` method, proved against `PointLoad`.
- `Boundary`: the fixed/free split (`np.setdiff1d`) and the reduction
  `K[free, :][:, free]`, `F[free]`.
  - The scatter `displacements[free] = u` is an array method, proved against
    the fold `Scattered`.
  - Gather and scatter are adjoint. So u solves the reduced system exactly
    when the scattered vector satisfies every free row of K·d = F.
- `Equilibrium`: K·d read element by element. Row r of K·d is the sum of
  the nodal forces ke·d_e of the elements that cover r.
- `Exactness`: the cubic w(x) = q x²(x - 3L)/(6EI), the exact deflection
  of the loaded cantilever, sampled at the nodes, solves the reduced system.
  - No other vector solves it, for every N ≥ 1.
  - So, in exact real arithmetic and whenever L ≠ 0 and EI ≠ 0, the
    script's tip deflection is -q L³/(3EI), the negated
    `theoretical_max_displacement`.
  - For L > 0 the deflection magnitude never decreases from the clamp to
    the tip.
  - The proof uses element equilibrium, a sweep from the tip back to the
    clamp, and a sweep from the clamp out to the tip.
- `Results`: `np.linspace`, the stride-2 slice, `displacement_to_bending`
  and `theoretical_max_displacement`.
- `Analysis`: the script from assembly to profile (`Beam2d.py` lines 24-57),
  with the result of `np.linalg.solve` taken as a parameter.

## Model

| member | source | states |
|---|---|---|
| Matrices.Zeros | Beam2d.py:43 | `np.zeros(n)` (also at lines 24 and 35): n entries, all 0. |
| Stiffness.BendingPattern | Beam2d.py:18-21 | The literal 4×4 array of the element matrix, polynomial in h, before the E·I/h³ factor. |
| Stiffness.Scale | Beam2d.py:18 | The scalar-times-array product: same shape, every entry multiplied by the scalar. |
| Stiffness.ElementStiffness | Beam2d.py:17-21 | The element matrix is 4×4 and symmetric. Python raises on h = 0, so h ≠ 0 is required. |
| Stiffness.ElementStiffnessTranslationFree | Beam2d.py:17-21 | A rigid translation of the element (1, 0, 1, 0) produces zero nodal forces. |
| Stiffness.ElementStiffnessRotationFree | Beam2d.py:17-21 | A rigid rotation about the left node (0, 1, h, 1) produces zero nodal forces. |
| Stiffness.ElementStiffnessBlocks | Beam2d.py:18-21 | The right-node diagonal block repeats the left-node one, with the coupling term negated. The transverse cross terms are the negated diagonal. |
| Assembly.GlobalSize | Beam2d.py:24 | The system size 2(N+1): two DOFs for each of the N+1 nodes. |
| Assembly.ElementLength | Beam2d.py:14 | h_elem = L/N satisfies h·N = L. N ≥ 1 is required (Python raises on N = 0). |
| Assembly.ElementDofs | Beam2d.py:29 | Element i's local DOF a maps to global DOF 2i + a. |
| Assembly.ElementDofsInRange | Beam2d.py:29 | For i < N the four DOFs are distinct and all below 2(N+1). |
| Assembly.NeighboursShareOneNode | Beam2d.py:29 | Elements i and i+1 share exactly DOFs 2(i+1) and 2(i+1)+1. |
| Assembly.RowSumLocal | Beam2d.py:31-32 | After k steps of the `for b` loop for row a, element i has added ke[a][c-2i] to (r, c) if r is its DOF a, it covers c and c is among the first k columns, and nothing otherwise. |
| Assembly.RowsSumLocal | Beam2d.py:30-32 | After k steps of the `for a` loop, element i has added ke[r-2i][c-2i] to (r, c) if it covers both indices and r is among its first k rows, and nothing otherwise. |
| Assembly.ContributionLocal | Beam2d.py:28-32 | Element i adds ke[r-2i][c-2i] to entry (r, c) when its window covers both indices, and 0 otherwise. |
| Assembly.Contribution | Beam2d.py:28-32 | Everything one pass of the `for a` / `for b` loops for element i adds to entry (r, c); its closed form is ContributionLocal. |
| Assembly.GlobalEntry | Beam2d.py:24-32 | Entry (r, c) after the first n elements are added to the zero matrix: the specification AssembleGlobal is proved against. |
| Assembly.GlobalMatrix | Beam2d.py:24 | The global matrix is 2(N+1) × 2(N+1). |
| Assembly.GlobalEntrySymmetric | Beam2d.py:27-32 | If ke is symmetric, every accumulated entry (r, c) equals (c, r). |
| Assembly.GlobalMatrixSymmetric | Beam2d.py:27-32 | The assembled K is symmetric for every N when ke is. |
| Assembly.GlobalEntryBanded | Beam2d.py:27-32 | Entries whose node indices r/2 and c/2 differ by more than one stay 0. |
| Assembly.GlobalEntryOutside | Beam2d.py:24-32 | Entries at or beyond index 2(N+1) receive nothing. |
| Assembly.NodeBlock | Beam2d.py:27-32 | A node's 2×2 diagonal block is the right-node block of the element to its left plus the left-node block of the element to its right. |
| Assembly.NodeCoupling | Beam2d.py:27-32 | The block coupling node j to node j+1 is the off-diagonal block of ke, added once. |
| Assembly.DiagonalSumTotal | Beam2d.py:27-32 | Summed over all diagonal positions, the diagonal entries each element adds give N · trace(ke). |
| Assembly.GlobalTrace | Beam2d.py:27-32 | trace(K) = N · trace(ke): every diagonal entry of every element is counted once. |
| Assembly.AddElement | Beam2d.py:30-32 | The `for a` / `for b` loops add Contribution(ke, i, r, c) to every entry and change nothing else. |
| Assembly.AssembleGlobal | Beam2d.py:24-32 | A fresh 2(N+1)-square array whose every entry is the accumulated GlobalEntry. |
| Assembly.PointLoad | Beam2d.py:35-36 | The load has length 2(N+1), F[2N] = -q, and every other entry is 0. |
| Assembly.LoadVector | Beam2d.py:35-36 | The fresh array holds exactly PointLoad(N, q). |
| Boundary.FixedDofs | Beam2d.py:39 | `fixed = [0, 1]`: the deflection and rotation of the clamped node 0. |
| Boundary.SetDiff | Beam2d.py:40 | `setdiff1d(arange(total), excluded)` is strictly increasing and holds exactly the k < total that are not excluded. |
| Boundary.SetDiffAboveFixed | Beam2d.py:39-40 | Removing [0, 1] from 0..total-1 leaves 2..total-1 in order. |
| Boundary.FreeDofs | Beam2d.py:39-40 | The free set has 2N entries and free[j] = j + 2. |
| Boundary.FreeDofsShape | Beam2d.py:39-40 | free is disjoint from fixed = [0, 1], and together they cover every DOF below 2(N+1). |
| Boundary.ReduceVector | Beam2d.py:45 | F[free] has one entry per free index. |
| Boundary.ReduceMatrix | Beam2d.py:44 | Row i of K[free,:][:,free] is row free[i] of K restricted to the free columns. |
| Boundary.ReductionLaw | Beam2d.py:44-45 | Kff[i][j] = K[free[i]][free[j]] = K[i+2][j+2] and Ff[i] = F[free[i]] = F[i+2] for all i, j < 2N. |
| Boundary.ReduceMatrixSymmetric | Beam2d.py:44 | Reducing a symmetric matrix gives a symmetric matrix. |
| Boundary.Scattered | Beam2d.py:48 | The indexed assignment keeps the vector's length. |
| Boundary.ScatteredAt | Beam2d.py:48 | With increasing indices, d[idx[k]] = u[k] and every other entry keeps its old value. |
| Boundary.ScatterInto | Beam2d.py:48 | The in-place loop leaves the array equal to Scattered(old contents, idx, u). |
| Boundary.FreeScatter | Beam2d.py:43-48 | Scattering u into zeros leaves d[0] = d[1] = 0 and puts u[j] at d[j+2]. |
| Boundary.GatherScatterDot | Beam2d.py:44-48 | row · scatter(u) = row[free] · u (gather and scatter are adjoint). |
| Boundary.ReducedRowsIff | Beam2d.py:44-48 | For any increasing index set, Kff·u = Ff holds exactly when the scattered d satisfies K[r]·d = F[r] at every index r of the set. |
| Boundary.ReducedSystemMatchesFullSystem | Beam2d.py:39-48 | The scattered d is 0 on the fixed DOFs, and Kff·u = Ff holds exactly when K[r]·d = F[r] for every free r. |
| Equilibrium.Gather | Beam2d.py:29 | Element i's displacements are d[2i+a] for its four local DOFs a. |
| Equilibrium.ContributionRowDot | Beam2d.py:28-32 | Element i's contribution to row r, applied to d, is its nodal force ke·d_e at r when it covers r, and 0 otherwise. |
| Equilibrium.EntryRowDot | Beam2d.py:27-32 | Row r of the matrix built from the first k elements, applied to d, is the sum of their nodal forces at r. |
| Equilibrium.GlobalRowDot | Beam2d.py:24-32 | Row r of the assembled K times d is the assembled element force at r: K·d is assembled from the ke·d_e as K is from ke. |
| Equilibrium.NodeForce | Beam2d.py:27-32 | The force at node j collects the right-node force of element j-1 and the left-node force of element j, whichever exist. |
| Exactness.ElementStiffnessIsBeamElement | Beam2d.py:17-21 | The element matrix is the bending pattern scaled by c = E·I/h³. |
| Exactness.PatternForces | Beam2d.py:18-21 | The bending pattern times element displacements, written out row by row. |
| Exactness.ScaledForces | Beam2d.py:18 | The element forces are c times the pattern forces. |
| Exactness.ElementEquilibrium | Beam2d.py:18-21 | For any displacements, an element's transverse forces cancel (f0 = -f2) and its moments balance their couple (f1 = -h·f2 - f3). |
| Exactness.ElementDeterminacy | Beam2d.py:18-21 | With c, h ≠ 0, two element displacement vectors with the same left node and the same right-node forces are equal. |
| Exactness.PatternDeterminacy | Beam2d.py:18-21 | The same as ElementDeterminacy, for the unscaled pattern. |
| Exactness.PatternShear | Beam2d.py:18-21 | Displacements whose pattern rows give shear s over [a, b] have pattern forces (s, s(L-a), -s, -s(L-b)). |
| Exactness.CubicRows | Beam2d.py:18-21 | At the ends of any [a, a+h], the cubic p x²(x-3L) and its slope give the pattern forces of the constant shear 6ph³: the element reproduces a cubic exactly. |
| Exactness.ShearIsLoad | Beam2d.py:18 | With c = EI/h³ and p = q/(6EI), the shear c·6ph³ is q. |
| Exactness.ElementPatternShear | Beam2d.py:18-29 | Under a constant shear, element i of the mesh has pattern forces (s, s(L-x_i), -s, -s(L-x_{i+1})). |
| Exactness.ScaledShear | Beam2d.py:18 | Scaling the pattern by c scales those end forces by c. |
| Exactness.ElementShear | Beam2d.py:18-29 | Under a constant shear, element i's nodal forces are (cs, cs(L-x_i), -cs, -cs(L-x_{i+1})). |
| Exactness.InteriorNodeForces | Beam2d.py:24-32 | Under a constant shear, every interior node receives zero force and zero moment from the assembled K. |
| Exactness.TipNodeForces | Beam2d.py:24-32 | Under a constant shear, the tip node receives the force -cs and the moment -cs(L - Nh). |
| Exactness.ShearSolvesFreeRows | Beam2d.py:24-36 | With cs = q and N·h = L, a constant shear solves every free row of K·d = F for the tip load -q. |
| Exactness.RightForceAgrees | Beam2d.py:24-32 | If two vectors give the same force at node i+1 and element i+1 carries the same forces under both, element i's right-node forces agree. |
| Exactness.LeftForcesFollow | Beam2d.py:18-21 | Equal right-node forces of an element mean equal forces at all four DOFs. |
| Exactness.ForcesAgree | Beam2d.py:24-32 | Two vectors with the same assembled force at every free DOF give every element the same nodal forces (a sweep from the tip back to the clamp). |
| Exactness.NodesAgree | Beam2d.py:18-32 | Two vectors that agree at the clamp and give every element the same forces agree at every node (a sweep from the clamp out to the tip). |
| Exactness.FreeRowsDetermine | Beam2d.py:24-40 | With the clamped node fixed, the free rows of K·d determine d. |
| Exactness.CubicNodal | Beam2d.py:67-68 | Reference definition, not a line of the script: the analytic cubic sampled in the 2(N+1) DOF layout. |
| Exactness.CubicNodalAt | Beam2d.py:67-68 | Reference definition: its entries at node j are the cubic's deflection and slope at x_j = j·h. |
| Exactness.CubicNodalShear | Beam2d.py:18-29 | The sampled cubic puts every element under the shear 6ph³ and is 0 at the clamp. |
| Exactness.UniqueSolution | Beam2d.py:24-40 | If X is 0 at the clamp and solves the free rows, then a vector d that is 0 at the clamp solves them exactly when d = X. |
| Exactness.FreeRowsAsForces | Beam2d.py:24-40 | The free rows of K·d = F say that the assembled force at every DOF from 2 up is F there. |
| Exactness.ScatterIsVector | Beam2d.py:43-48 | For X that is 0 at the clamp, scattering u gives X exactly when u = X[2..]. |
| Exactness.ExactDisplacements | Beam2d.py:67-68 | Reference definition, not a line of the script: the exact nodal vector, with p = q/(6EI) and h = L/N, has 2(N+1) entries. |
| Exactness.ExactSolvesFreeRows | Beam2d.py:17-40 | The exact nodal vector is 0 at the clamp and solves every free row of K·d = F. |
| Exactness.ReducedSystemAsForces | Beam2d.py:39-48 | Kff·u = Ff holds exactly when the scattered d produces the load as assembled force at every free DOF. |
| Exactness.ReducedSolutionUnique | Beam2d.py:39-48 | Once some X that is 0 at the clamp solves the free rows, Kff·u = Ff holds exactly when u = X[2..]. |
| Exactness.NodallyExact | Beam2d.py:24-48 | For every N ≥ 1, L ≠ 0 and EI ≠ 0, Kff·u = Ff holds if and only if u is the exact deflection and slope at the free nodes. |
| Exactness.ExactTip | Beam2d.py:67-68 | The exact tip deflection is -qL³/(3EI), the negated theoretical maximum, and the tip slope is -qL²/(2EI). |
| Exactness.DeflectionGrows | Beam2d.py:67-68 | Reference: on [0, L] the magnitude of the exact deflection p x²(x-3L) never decreases as x grows. |
| Exactness.ExactDeflectionGrows | Beam2d.py:67-68 | Reference: for L > 0, the exact nodal deflections satisfy abs(X[2i]) ≤ abs(X[2j]) whenever i ≤ j ≤ N. |
| Exactness.CubicTip | Beam2d.py:67-68 | The cubic at L equals -theoretical_max_displacement, and its slope at L is -qL²/(2EI). |
| Results.Linspace | Beam2d.py:52 | `linspace(start, stop, num)` has num points, starts at start, ends at stop and is evenly spaced. |
| Results.LinspaceAt | Beam2d.py:52 | Point k is start + k·(stop-start)/(num-1). |
| Results.EveryOther | Beam2d.py:53 | `v[::2]` has ⌈|v|/2⌉ entries. |
| Results.EveryOtherAt | Beam2d.py:53 | Entry i of `v[::2]` is v[2i]. |
| Results.DisplacementToBending | Beam2d.py:51-54 | x has N+1 points and y has ⌈|d|/2⌉ entries. |
| Results.BendingProfile | Beam2d.py:51-54 | For a full vector of length 2(N+1), x[i] = i·L/N and y[i] = d[2i] for every node i. |
| Results.TheoreticalMaxDisplacement | Beam2d.py:67-68 | δ·3EI = qL³. E·I ≠ 0 is required (Python raises otherwise). |
| Analysis.AssembledMatrix | Beam2d.py:24-32 | An array holding every GlobalEntry is, as a value, the global matrix. |
| Analysis.Displacements | Beam2d.py:43-48 | The displacement vector has 2(N+1) entries. |
| Analysis.Profile | Beam2d.py:51-57 | The computed profile has N+1 points, x[i] = i·L/N, y[0] = 0 (the clamp) and y[i] = u[2i-2] for every other node. |
| Analysis.InitialProfile | Beam2d.py:59-64 | The reset displacement vector gives a flat profile y = 0 at the same x. |
| Analysis.ProfileMonotone | Beam2d.py:24-57 | For L > 0 and EI ≠ 0, if u solves the reduced system then the drawn profile satisfies abs(y[i]) ≤ abs(y[j]) for all 0 ≤ i ≤ j ≤ N: the deflection magnitude never decreases from the clamp to the tip. |
| Analysis.Run | Beam2d.py:24-57 | Kff and Ff are the reductions of the assembled K and F, and (x, y) is the profile of the scattered u. If u solves the reduced system, every free row of K·d = F holds. With EI ≠ 0, u solves it exactly when u is the exact nodal solution, and then the drawn tip deflection y[N] is -theoretical_max_displacement. With L > 0 as well, abs(y) never decreases from the clamp to the tip. |

## Left out

- `np.linalg.solve` (Beam2d.py:48) is not modelled. Its result is the parameter `u`. The model proves that the reduced system has exactly one solution when L ≠ 0 and EI ≠ 0, and names that solution. It does not model how the solver finds it.
- Floating-point rounding is not modelled: every entry is an exact real, so the laws hold exactly rather than up to rounding.
- Plotting and axis set-up (Beam2d.py:80-122), the console output (Beam2d.py:125-126) and the `min(y)` / `max` used only for display are I/O and are not modelled.
- `theoretical_displacement_1st` (Beam2d.py:74-78) is not modelled. It feeds only the plot layout: the axis limits, and, through `max_displacement`, the position of the annotation text (Beam2d.py:107, 115).
- When EI = 0, K_ff is singular and the script stops at `np.linalg.solve` (Beam2d.py:48). `Analysis.Run` still returns a profile for any given u in that case; only its EI ≠ 0 clauses say anything about the solution.
- The module constants (Beam2d.py:5-14) are parameters. The loop variable `b` at Beam2d.py:31 rebinds the beam width `b` of Beam2d.py:6. `I` was already computed at Beam2d.py:8, so this changes no result, and the model has no such global.
