/** The static analysis of the cantilever from end to end: assemble, load,
    reduce to the free degrees of freedom, put the reduced solution back and
    extract the deflection profile. The linear solve itself is outside the
    model; its result enters as the parameter u. */
module Analysis {
  import opened Matrices
  import opened Stiffness
  import opened Assembly
  import opened Boundary
  import opened Results
  import opened Exactness

  /** The contents of a 2-D array as a matrix value. */
  function ToMatrix(K: array2<real>): (m: Matrix)
    reads K
    ensures IsMatrix(m, K.Length0, K.Length1)
    ensures forall r, c :: 0 <= r < K.Length0 && 0 <= c < K.Length1 ==> m[r][c] == K[r, c]
  {
    seq(K.Length0, r requires 0 <= r < K.Length0 reads K =>
      seq(K.Length1, c requires 0 <= c < K.Length1 reads K => K[r, c]))
  }

  /** An array holding every global entry holds the global matrix. */
  lemma {:induction false} AssembledMatrix(K: array2<real>, ke: Matrix, n: nat)
    requires IsMatrix(ke, 4, 4)
    requires K.Length0 == GlobalSize(n) && K.Length1 == GlobalSize(n)
    requires forall r, c :: 0 <= r < K.Length0 && 0 <= c < K.Length1 ==> K[r, c] == GlobalEntry(ke, n, r, c)
    ensures ToMatrix(K) == GlobalMatrix(ke, n)
  {
    var m, G := ToMatrix(K), GlobalMatrix(ke, n);
    forall r | 0 <= r < GlobalSize(n) ensures m[r] == G[r] {
      assert forall c :: 0 <= c < GlobalSize(n) ==> m[r][c] == G[r][c];
    }
  }

  /** The full displacement vector an n-element run produces from the
      reduced solution u. */
  function Displacements(n: nat, u: seq<real>): (d: seq<real>)
    requires |u| == 2 * n
    ensures |d| == GlobalSize(n)
  {
    Scattered(Zeros(GlobalSize(n)), FreeDofs(n), u)
  }

  /** The deflection profile of an n-element run: node i sits at i * L / n,
      the clamped node does not move, and every other node deflects by the
      transverse entry of u that belongs to it. */
  lemma {:induction false} Profile(n: nat, L: real, u: seq<real>)
    requires n >= 1 && |u| == 2 * n
    ensures var (x, y) := DisplacementToBending(Displacements(n, u), n, L);
      && |x| == n + 1 && |y| == n + 1 && y[0] == 0.0
      && (forall i :: 0 <= i <= n ==> x[i] == (i as real) * L / (n as real))
      && (forall i :: 1 <= i <= n ==> y[i] == u[2 * i - 2])
  {
    var d := Displacements(n, u);
    FreeScatter(n, u);
    BendingProfile(d, n, L);
    forall i | 1 <= i <= n ensures d[2 * i] == u[2 * i - 2] {
      assert d[(2 * i - 2) + 2] == u[2 * i - 2];
    }
  }

  /** The reference profile: a zero vector whose free entries are set to
      zero once more is flat, at the same node positions. */
  lemma {:induction false} InitialProfile(n: nat, L: real)
    requires n >= 1
    ensures var (x, y) := DisplacementToBending(Scattered(Zeros(GlobalSize(n)), FreeDofs(n), Zeros(2 * n)), n, L);
      && |x| == n + 1 && y == Zeros(n + 1)
      && (forall i :: 0 <= i <= n ==> x[i] == (i as real) * L / (n as real))
  {
    var d := Scattered(Zeros(GlobalSize(n)), FreeDofs(n), Zeros(2 * n));
    FreeScatter(n, Zeros(2 * n));
    assert d == Zeros(GlobalSize(n)) by {
      forall k | 0 <= k < GlobalSize(n) ensures d[k] == 0.0 {
        if k >= 2 {
          assert d[(k - 2) + 2] == Zeros(2 * n)[k - 2];
        }
      }
    }
    BendingProfile(d, n, L);
  }

  /** When u solves the reduced system of a beam of positive length, the
      deflection magnitude of the profile never decreases from the clamp to
      the tip. */
  lemma {:induction false} ProfileMonotone(E: real, I: real, L: real, q: real, n: nat, u: seq<real>)
    requires n >= 1 && L > 0.0 && E * I != 0.0 && |u| == 2 * n
    requires var K := GlobalMatrix(ElementStiffness(E, I, ElementLength(L, n)), n);
      MatVec(ReduceMatrix(K, FreeDofs(n)), u) == ReduceVector(PointLoad(n, q), FreeDofs(n))
    ensures var (x, y) := DisplacementToBending(Displacements(n, u), n, L);
      forall i, j :: 0 <= i <= j <= n ==> Abs(y[i]) <= Abs(y[j])
  {
    var X := ExactDisplacements(E, I, L, q, n);
    var (x, y) := DisplacementToBending(Displacements(n, u), n, L);
    NodallyExact(E, I, L, q, n, u);
    Profile(n, L, u);
    assert forall i :: 0 <= i <= n ==> y[i] == X[2 * i] by {
      forall i | 0 <= i <= n ensures y[i] == X[2 * i] {
        if i == 0 {
          ExactSolvesFreeRows(E, I, L, q, n);
        } else {
          assert u[2 * i - 2] == X[(2 * i - 2) + 2];
        }
      }
    }
    forall i, j | 0 <= i <= j <= n ensures Abs(y[i]) <= Abs(y[j]) {
      ExactDeflectionGrows(E, I, L, q, n, i, j);
    }
  }

  /** Lines 24 to 57 of the script for n elements: the reduced system
      (Kff, Ff) it hands to the solver, and the profile (x, y) it draws once
      the solver has returned u. When u does solve the reduced system, the
      full displacement vector satisfies every free row of K d == F, the
      tip deflects by -q L^3 / (3 E I) and, for L > 0, the deflection
      magnitude never decreases from the clamp to the tip. */
  method Run(E: real, I: real, L: real, q: real, n: nat, u: seq<real>)
    returns (Kff: Matrix, Ff: seq<real>, x: seq<real>, y: seq<real>)
    requires n >= 1 && L != 0.0 && |u| == 2 * n
    ensures var K := GlobalMatrix(ElementStiffness(E, I, ElementLength(L, n)), n);
      && Kff == ReduceMatrix(K, FreeDofs(n))
      && Ff == ReduceVector(PointLoad(n, q), FreeDofs(n))
      && (x, y) == DisplacementToBending(Displacements(n, u), n, L)
      && (MatVec(Kff, u) == Ff ==>
            forall r :: r in FreeDofs(n) ==> Dot(K[r], Displacements(n, u)) == PointLoad(n, q)[r])
    ensures E * I != 0.0 ==> (MatVec(Kff, u) == Ff <==> u == ExactDisplacements(E, I, L, q, n)[2..])
    ensures E * I != 0.0 && MatVec(Kff, u) == Ff ==> y[n] == -TheoreticalMaxDisplacement(q, L, E, I)
    ensures L > 0.0 && E * I != 0.0 && MatVec(Kff, u) == Ff ==>
      forall i, j :: 0 <= i <= j <= n ==> Abs(y[i]) <= Abs(y[j])
  {
    var K := AssembleGlobal(E, I, L, n);
    var F := LoadVector(n, q);
    var free := FreeDofs(n);
    ghost var Kv := GlobalMatrix(ElementStiffness(E, I, ElementLength(L, n)), n);
    AssembledMatrix(K, ElementStiffness(E, I, ElementLength(L, n)), n);
    Kff := ReduceMatrix(ToMatrix(K), free);
    Ff := ReduceVector(F[..], free);
    var displacements := new real[GlobalSize(n)](_ => 0.0);
    assert displacements[..] == Zeros(GlobalSize(n));
    ScatterInto(displacements, free, u);
    var profile := DisplacementToBending(displacements[..], n, L);
    x, y := profile.0, profile.1;
    ReducedSystemMatchesFullSystem(Kv, PointLoad(n, q), FixedDofs(), u);
    if E * I != 0.0 {
      NodallyExact(E, I, L, q, n, u);
      if MatVec(Kff, u) == Ff {
        var X := ExactDisplacements(E, I, L, q, n);
        Profile(n, L, u);
        ExactTip(E, I, L, q, n);
        assert u[2 * n - 2] == X[2 * n];
        if L > 0.0 {
          ProfileMonotone(E, I, L, q, n, u);
        }
      }
    }
  }
}
