/** Nodal exactness of the cantilever model for every number of elements.
    The exact Euler-Bernoulli deflection of a cantilever clamped at x = 0
    under the tip load -q is the cubic w(x) = q x^2 (x - 3L) / (6 E I),
    with slope w'(x) = q x (x - 2L) / (2 E I). Cubic Hermite elements
    reproduce a cubic exactly, so the reduced system Kff * u = Ff has
    exactly one solution, and that solution is w and w' sampled at the free
    nodes. In particular the computed tip deflection is the negated
    `theoretical_max_displacement`, whatever N is. */
module Exactness {
  import opened Matrices
  import opened Stiffness
  import opened Assembly
  import opened Boundary
  import opened Results
  import opened Equilibrium

  /** ke is the bending pattern of an element of length h scaled by c. */
  predicate BeamElement(ke: Matrix, c: real, h: real) {
    ke == Scale(c, BendingPattern(h))
  }

  /** The element matrix is the pattern scaled by E*I/h^3. */
  lemma {:induction false} ElementStiffnessIsBeamElement(E: real, I: real, h: real)
    requires h != 0.0
    ensures BeamElement(ElementStiffness(E, I, h), E * I / (h * h * h), h)
  {
  }

  /** The pattern rows applied to the element displacements (w0, t0, w1, t1)
      equal the end forces of a constant shear s on an element spanning
      [a, b] of a cantilever of length L: shear s at the left node, moment
      s (L - a) there, and their opposites -s and -s (L - b) at the right
      node. */
  predicate RowsGive(h: real, w0: real, t0: real, w1: real, t1: real, s: real, L: real, a: real, b: real) {
    && 12.0 * w0 + 6.0 * h * t0 + -12.0 * w1 + 6.0 * h * t1 == s
    && 6.0 * h * w0 + 4.0 * h * h * t0 + -6.0 * h * w1 + 2.0 * h * h * t1 == s * (L - a)
    && -12.0 * w0 + -6.0 * h * t0 + 12.0 * w1 + -6.0 * h * t1 == -s
    && 6.0 * h * w0 + 2.0 * h * h * t0 + -6.0 * h * w1 + 4.0 * h * h * t1 == -s * (L - b)
  }

  /** The bending pattern applied to element displacements, row by row. */
  lemma {:induction false} PatternForces(h: real, ue: seq<real>)
    requires |ue| == 4
    ensures var g := MatVec(BendingPattern(h), ue);
      && |g| == 4
      && g[0] == 12.0 * ue[0] + 6.0 * h * ue[1] + -12.0 * ue[2] + 6.0 * h * ue[3]
      && g[1] == 6.0 * h * ue[0] + 4.0 * h * h * ue[1] + -6.0 * h * ue[2] + 2.0 * h * h * ue[3]
      && g[2] == -12.0 * ue[0] + -6.0 * h * ue[1] + 12.0 * ue[2] + -6.0 * h * ue[3]
      && g[3] == 6.0 * h * ue[0] + 2.0 * h * h * ue[1] + -6.0 * h * ue[2] + 4.0 * h * h * ue[3]
  {
    var P := BendingPattern(h);
    var g := MatVec(P, ue);
    assert g[0] == Dot(P[0], ue) && g[1] == Dot(P[1], ue) && g[2] == Dot(P[2], ue) && g[3] == Dot(P[3], ue);
    Dot4(P[0], ue);
    Dot4(P[1], ue);
    Dot4(P[2], ue);
    Dot4(P[3], ue);
  }

  /** The forces of a beam element are c times the pattern forces. */
  lemma {:induction false} ScaledForces(ke: Matrix, c: real, h: real, ue: seq<real>)
    requires BeamElement(ke, c, h) && |ue| == 4
    ensures forall a :: 0 <= a < 4 ==>
      MatVec(ke, ue)[a] == c * MatVec(BendingPattern(h), ue)[a]
  {
    var P := BendingPattern(h);
    forall a | 0 <= a < 4 ensures MatVec(ke, ue)[a] == c * MatVec(P, ue)[a] {
      DotScale(c, ke[a], P[a], ue);
    }
  }

  /** Equilibrium of a single element: its transverse forces cancel, and
      its moments balance the couple of the transverse forces, for any
      displacements. So the left-node forces follow from the right-node
      ones. */
  lemma {:induction false} ElementEquilibrium(ke: Matrix, c: real, h: real, ue: seq<real>)
    requires BeamElement(ke, c, h) && |ue| == 4
    ensures var f := MatVec(ke, ue);
      f[0] == -f[2] && f[1] == -h * f[2] - f[3]
  {
    var g := MatVec(BendingPattern(h), ue);
    assert g[0] == -g[2] by {
      PatternForces(h, ue);
    }
    assert g[1] == -h * g[2] - g[3] by {
      PatternForces(h, ue);
    }
    ScaledForces(ke, c, h, ue);
    ScaledBalance(c, h, g[0], g[1], g[2], g[3]);
  }

  lemma {:induction false} ScaledBalance(c: real, h: real, g0: real, g1: real, g2: real, g3: real)
    requires g0 == -g2 && g1 == -h * g2 - g3
    ensures c * g0 == -(c * g2) && c * g1 == -h * (c * g2) - c * g3
  {
  }

  /** Two displacement vectors of one element that agree at the left node
      and produce the same right-node forces agree at the right node too
      (the right-node block is invertible when c and h are nonzero). */
  lemma {:induction false} ElementDeterminacy(ke: Matrix, c: real, h: real, ue: seq<real>, ve: seq<real>)
    requires BeamElement(ke, c, h) && c != 0.0 && h != 0.0
    requires |ue| == 4 && |ve| == 4 && ue[0] == ve[0] && ue[1] == ve[1]
    requires MatVec(ke, ue)[2] == MatVec(ke, ve)[2] && MatVec(ke, ue)[3] == MatVec(ke, ve)[3]
    ensures ue == ve
  {
    var gu, gv := MatVec(BendingPattern(h), ue), MatVec(BendingPattern(h), ve);
    assert gu[2] == gv[2] && gu[3] == gv[3] by {
      ScaledForces(ke, c, h, ue);
      ScaledForces(ke, c, h, ve);
      CancelNonzeroFactor(c, gu[2], gv[2]);
      CancelNonzeroFactor(c, gu[3], gv[3]);
    }
    SeqOfFour(ue, ue[0], ue[1], ue[2], ue[3]);
    SeqOfFour(ve, ue[0], ue[1], ve[2], ve[3]);
    PatternDeterminacy(h, ue[0], ue[1], ue[2], ue[3], ve[2], ve[3]);
  }

  /** The unscaled form of ElementDeterminacy, on the four displacements. */
  lemma {:induction false} PatternDeterminacy(h: real, w0: real, t0: real, u1: real, s1: real, v1: real, r1: real)
    requires h != 0.0
    requires var gu, gv := MatVec(BendingPattern(h), [w0, t0, u1, s1]), MatVec(BendingPattern(h), [w0, t0, v1, r1]);
      gu[2] == gv[2] && gu[3] == gv[3]
    ensures u1 == v1 && s1 == r1
  {
    PatternForces(h, [w0, t0, u1, s1]);
    PatternForces(h, [w0, t0, v1, r1]);
    RightRowsDetermine(h, w0, t0, u1, s1, v1, r1);
  }

  lemma {:induction false} SeqOfFour(g: seq<real>, x0: real, x1: real, x2: real, x3: real)
    requires |g| == 4 && g[0] == x0 && g[1] == x1 && g[2] == x2 && g[3] == x3
    ensures g == [x0, x1, x2, x3]
  {
  }

  lemma {:induction false} CancelNonzeroFactor(c: real, x: real, y: real)
    requires c != 0.0 && c * x == c * y
    ensures x == y
  {
    assert c * (x - y) == 0.0;
  }

  /** The right-node rows of the pattern, for fixed left-node displacements,
      determine the right-node displacements. */
  lemma {:induction false} RightRowsDetermine(h: real, w0: real, t0: real, u1: real, s1: real, v1: real, r1: real)
    requires h != 0.0
    requires -12.0 * w0 + -6.0 * h * t0 + 12.0 * u1 + -6.0 * h * s1 == -12.0 * w0 + -6.0 * h * t0 + 12.0 * v1 + -6.0 * h * r1
    requires 6.0 * h * w0 + 2.0 * h * h * t0 + -6.0 * h * u1 + 4.0 * h * h * s1 == 6.0 * h * w0 + 2.0 * h * h * t0 + -6.0 * h * v1 + 4.0 * h * h * r1
    ensures u1 == v1 && s1 == r1
  {
    RightBlockInvertible(h, u1 - v1, s1 - r1);
  }

  /** [[12, -6h], [-6h, 4h^2]] maps only zero to zero when h is nonzero. */
  lemma {:induction false} RightBlockInvertible(h: real, dw: real, dt: real)
    requires h != 0.0
    requires 12.0 * dw - 6.0 * h * dt == 0.0
    requires -6.0 * h * dw + 4.0 * h * h * dt == 0.0
    ensures dw == 0.0 && dt == 0.0
  {
    assert 2.0 * dw == h * dt;
    assert h * (h * dt) == 0.0;
    assert h * dt == 0.0;
  }

  /** Pattern rows that give the shear s over [a, b] are the pattern's
      forces on the four displacements. */
  lemma {:induction false} PatternShear(h: real, w0: real, t0: real, w1: real, t1: real, s: real, L: real, a: real, b: real)
    requires RowsGive(h, w0, t0, w1, t1, s, L, a, b)
    ensures var g := MatVec(BendingPattern(h), [w0, t0, w1, t1]);
      g[0] == s && g[1] == s * (L - a) && g[2] == -s && g[3] == -s * (L - b)
  {
    PatternForces(h, [w0, t0, w1, t1]);
  }

  /** The cubic w(x) = p x^2 (x - 3L). With p = q / (6 E I) it is the exact
      deflection of a cantilever of length L, clamped at 0, under the tip
      load -q. */
  function Deflection(p: real, L: real, x: real): real {
    p * (x * x * (x - 3.0 * L))
  }

  /** The slope w'(x) = 3 p x (x - 2L) of the same cubic. */
  function Slope(p: real, L: real, x: real): real {
    3.0 * p * (x * (x - 2.0 * L))
  }

  /** The pattern rows of the cubic's values at the ends of [a, a + h] give
      the constant shear 6 p h^3: a cubic Hermite element reproduces a
      cubic exactly. */
  lemma {:induction false} CubicRows(p: real, L: real, a: real, b: real, h: real)
    requires b == a + h
    ensures RowsGive(h, Deflection(p, L, a), Slope(p, L, a), Deflection(p, L, b), Slope(p, L, b),
      6.0 * p * (h * h * h), L, a, b)
  {
  }

  /** With c = E I / h^3 and p = q / (6 E I), the shear c 6 p h^3 is q. */
  lemma {:induction false} ShearIsLoad(EI: real, h: real, q: real)
    requires EI != 0.0 && h != 0.0
    ensures (EI / (h * h * h)) * (6.0 * (q / (6.0 * EI)) * (h * h * h)) == q
  {
    var h3 := h * h * h;
    assert h3 != 0.0;
    assert (EI / h3) * h3 == EI;
    assert 6.0 * (q / (6.0 * EI)) * EI == q;
  }

  /** Node j of a mesh of spacing h sits at x = j h. */
  function Node(j: nat, h: real): real {
    (j as real) * h
  }

  lemma {:induction false} NextNode(j: nat, h: real)
    ensures Node(j + 1, h) == Node(j, h) + h
  {
  }

  /** The pattern rows of element i of the mesh, applied to X, give the
      shear s over the element's span. */
  predicate ElementRows(X: seq<real>, i: nat, h: real, s: real, L: real)
    requires 2 * i + 4 <= |X|
  {
    RowsGive(h, X[2 * i], X[2 * i + 1], X[2 * i + 2], X[2 * i + 3], s, L, Node(i, h), Node(i + 1, h))
  }

  /** X puts every one of the n elements under the same shear s. */
  predicate ConstantShear(X: seq<real>, n: nat, h: real, s: real, L: real)
    requires |X| == GlobalSize(n)
  {
    forall i :: 0 <= i < n ==> ElementRows(X, i, h, s, L)
  }

  /** The pattern forces of one element of a mesh under constant shear. */
  lemma {:induction false} ElementPatternShear(h: real, X: seq<real>, n: nat, i: nat, s: real, L: real)
    requires |X| == GlobalSize(n) && i < n && ConstantShear(X, n, h, s, L)
    ensures var g := MatVec(BendingPattern(h), Gather(X, i));
      g[0] == s && g[1] == s * (L - Node(i, h)) && g[2] == -s && g[3] == -s * (L - Node(i + 1, h))
  {
    var ue := Gather(X, i);
    assert ElementRows(X, i, h, s, L);
    SeqOfFour(ue, X[2 * i], X[2 * i + 1], X[2 * i + 2], X[2 * i + 3]);
    PatternShear(h, X[2 * i], X[2 * i + 1], X[2 * i + 2], X[2 * i + 3], s, L, Node(i, h), Node(i + 1, h));
  }

  /** Scaling the pattern by c scales the end forces of a shear by c. */
  lemma {:induction false} ScaledShear(ke: Matrix, c: real, h: real, ue: seq<real>, s: real, L: real, a: real, b: real)
    requires BeamElement(ke, c, h) && |ue| == 4
    requires var g := MatVec(BendingPattern(h), ue);
      g[0] == s && g[1] == s * (L - a) && g[2] == -s && g[3] == -s * (L - b)
    ensures var f := MatVec(ke, ue);
      f[0] == c * s && f[1] == c * (s * (L - a)) && f[2] == c * -s && f[3] == c * (-s * (L - b))
  {
    ScaledForces(ke, c, h, ue);
  }

  /** Under a constant shear s, element i of a mesh of beam elements scaled
      by c carries the shear c s: c s and the moment c s (L - a) at its left
      node a, their opposites at its right node b. */
  lemma {:induction false} ElementShear(ke: Matrix, c: real, h: real, X: seq<real>, n: nat, i: nat, s: real, L: real)
    requires BeamElement(ke, c, h) && |X| == GlobalSize(n) && i < n && ConstantShear(X, n, h, s, L)
    ensures var f := ElementForces(ke, X, i);
      && f[0] == c * s && f[1] == c * (s * (L - Node(i, h)))
      && f[2] == c * -s && f[3] == c * (-s * (L - Node(i + 1, h)))
  {
    ElementPatternShear(h, X, n, i, s, L);
    ScaledShear(ke, c, h, Gather(X, i), s, L, Node(i, h), Node(i + 1, h));
  }

  /** Under a constant shear every interior node is in equilibrium: the
      element on its left and the element on its right exert opposite
      forces and opposite moments on it. */
  lemma {:induction false} InteriorNodeForces(ke: Matrix, c: real, h: real, X: seq<real>, n: nat, s: real, L: real, j: nat)
    requires BeamElement(ke, c, h) && |X| == GlobalSize(n) && ConstantShear(X, n, h, s, L)
    requires 1 <= j < n
    ensures AssembledForce(ke, X, n, 2 * j) == 0.0 && AssembledForce(ke, X, n, 2 * j + 1) == 0.0
  {
    var left, right := ElementForces(ke, X, j - 1), ElementForces(ke, X, j);
    assert left[2] == c * -s && left[3] == c * (-s * (L - Node(j, h))) by {
      ElementShear(ke, c, h, X, n, j - 1, s, L);
    }
    assert right[0] == c * s && right[1] == c * (s * (L - Node(j, h))) by {
      ElementShear(ke, c, h, X, n, j, s, L);
    }
    OppositeEndsCancel(c, s, L - Node(j, h));
    NodeForce(ke, X, n, j, 0);
    NodeForce(ke, X, n, j, 1);
  }

  lemma {:induction false} OppositeEndsCancel(c: real, s: real, y: real)
    ensures c * -s + c * s == 0.0 && c * (-s * y) + c * (s * y) == 0.0
  {
  }

  lemma {:induction false} ZeroArmNoMoment(c: real, s: real, y: real)
    requires y == 0.0
    ensures c * (-s * y) == 0.0
  {
  }

  /** Under a constant shear, the tip node carries the shear force -c s of
      the last element and its moment, which vanishes when the mesh ends at
      L. */
  lemma {:induction false} TipNodeForces(ke: Matrix, c: real, h: real, X: seq<real>, n: nat, s: real, L: real)
    requires BeamElement(ke, c, h) && |X| == GlobalSize(n) && ConstantShear(X, n, h, s, L)
    requires n >= 1
    ensures AssembledForce(ke, X, n, 2 * n) == c * -s
    ensures AssembledForce(ke, X, n, 2 * n + 1) == c * (-s * (L - Node(n, h)))
  {
    var last := ElementForces(ke, X, n - 1);
    assert last[2] == c * -s && last[3] == c * (-s * (L - Node(n, h))) by {
      ElementShear(ke, c, h, X, n, n - 1, s, L);
    }
    assert AssembledForce(ke, X, n, 2 * n) == last[2] by {
      NodeForce(ke, X, n, n, 0);
    }
    assert AssembledForce(ke, X, n, 2 * n + 1) == last[3] by {
      NodeForce(ke, X, n, n, 1);
    }
  }

  /** Two displacement vectors with the same assembled force at every free
      degree of freedom give every element the same nodal forces: sweeping
      from the tip back to the clamp, each node fixes the right-node forces
      of the element before it, and element equilibrium fixes its left-node
      forces. */
  lemma {:induction false} ForcesAgree(ke: Matrix, c: real, h: real, n: nat, d: seq<real>, e: seq<real>, i: nat)
    requires BeamElement(ke, c, h) && |d| == GlobalSize(n) && |e| == GlobalSize(n) && i < n
    requires forall r :: 2 <= r < GlobalSize(n) ==> AssembledForce(ke, d, n, r) == AssembledForce(ke, e, n, r)
    ensures ElementForces(ke, d, i) == ElementForces(ke, e, i)
    decreases n - i
  {
    if i + 1 < n {
      ForcesAgree(ke, c, h, n, d, e, i + 1);
    }
    RightForceAgrees(ke, n, d, e, i, 0);
    RightForceAgrees(ke, n, d, e, i, 1);
    LeftForcesFollow(ke, c, h, d, e, i);
  }

  /** Right-node force t of element i is what node i + 1 receives at t,
      less what element i + 1 exerts there. */
  lemma {:induction false} RightForceAgrees(ke: Matrix, n: nat, d: seq<real>, e: seq<real>, i: nat, t: nat)
    requires IsMatrix(ke, 4, 4) && |d| == GlobalSize(n) && |e| == GlobalSize(n) && i < n && t < 2
    requires AssembledForce(ke, d, n, 2 * (i + 1) + t) == AssembledForce(ke, e, n, 2 * (i + 1) + t)
    requires i + 1 < n ==> ElementForces(ke, d, i + 1) == ElementForces(ke, e, i + 1)
    ensures ElementForces(ke, d, i)[2 + t] == ElementForces(ke, e, i)[2 + t]
  {
    NodeForce(ke, d, n, i + 1, t);
    NodeForce(ke, e, n, i + 1, t);
  }

  /** By element equilibrium, equal right-node forces mean equal forces. */
  lemma {:induction false} LeftForcesFollow(ke: Matrix, c: real, h: real, d: seq<real>, e: seq<real>, i: nat)
    requires BeamElement(ke, c, h) && 2 * i + 4 <= |d| && 2 * i + 4 <= |e|
    requires ElementForces(ke, d, i)[2] == ElementForces(ke, e, i)[2]
    requires ElementForces(ke, d, i)[3] == ElementForces(ke, e, i)[3]
    ensures ElementForces(ke, d, i) == ElementForces(ke, e, i)
  {
    var fd, fe := ElementForces(ke, d, i), ElementForces(ke, e, i);
    ElementEquilibrium(ke, c, h, Gather(d, i));
    ElementEquilibrium(ke, c, h, Gather(e, i));
    SeqOfFour(fd, fe[0], fe[1], fe[2], fe[3]);
    SeqOfFour(fe, fe[0], fe[1], fe[2], fe[3]);
  }

  /** Two displacement vectors that agree at the clamp and give every
      element the same nodal forces agree at every node: sweeping from the
      clamp to the tip, each element's left node and right-node forces fix
      its right node. */
  lemma {:induction false} NodesAgree(ke: Matrix, c: real, h: real, n: nat, d: seq<real>, e: seq<real>, j: nat)
    requires BeamElement(ke, c, h) && c != 0.0 && h != 0.0
    requires |d| == GlobalSize(n) && |e| == GlobalSize(n) && j <= n
    requires d[0] == e[0] && d[1] == e[1]
    requires forall i :: 0 <= i < n ==> ElementForces(ke, d, i) == ElementForces(ke, e, i)
    ensures d[2 * j] == e[2 * j] && d[2 * j + 1] == e[2 * j + 1]
  {
    if j > 0 {
      NodesAgree(ke, c, h, n, d, e, j - 1);
      var ud, ue := Gather(d, j - 1), Gather(e, j - 1);
      assert ElementForces(ke, d, j - 1) == ElementForces(ke, e, j - 1);
      ElementDeterminacy(ke, c, h, ud, ue);
      assert ud[2] == d[2 * j] && ud[3] == d[2 * j + 1];
    }
  }

  /** The free rows of the assembled system determine the displacements
      once the clamped node is fixed: two vectors that agree at the clamp
      and have the same assembled force at every free degree of freedom are
      equal. */
  lemma {:induction false} FreeRowsDetermine(ke: Matrix, c: real, h: real, n: nat, d: seq<real>, e: seq<real>)
    requires BeamElement(ke, c, h) && c != 0.0 && h != 0.0
    requires |d| == GlobalSize(n) && |e| == GlobalSize(n) && d[0] == e[0] && d[1] == e[1]
    requires forall r :: 2 <= r < GlobalSize(n) ==> AssembledForce(ke, d, n, r) == AssembledForce(ke, e, n, r)
    ensures d == e
  {
    forall i | 0 <= i < n ensures ElementForces(ke, d, i) == ElementForces(ke, e, i) {
      ForcesAgree(ke, c, h, n, d, e, i);
    }
    forall k | 0 <= k < GlobalSize(n) ensures d[k] == e[k] {
      NodesAgree(ke, c, h, n, d, e, k / 2);
    }
  }

  /** The cubic and its slope sampled at the n + 1 nodes of a mesh of
      spacing h, in the global layout (deflection, rotation) per node. */
  function CubicNodal(p: real, L: real, h: real, n: nat): (X: seq<real>)
    ensures |X| == GlobalSize(n)
  {
    seq(GlobalSize(n), k requires 0 <= k < GlobalSize(n) =>
      if k % 2 == 0 then Deflection(p, L, Node(k / 2, h)) else Slope(p, L, Node(k / 2, h)))
  }

  lemma {:induction false} CubicNodalAt(p: real, L: real, h: real, n: nat, j: nat)
    requires j <= n
    ensures var X := CubicNodal(p, L, h, n);
      X[2 * j] == Deflection(p, L, Node(j, h)) && X[2 * j + 1] == Slope(p, L, Node(j, h))
  {
    assert (2 * j) % 2 == 0 && (2 * j) / 2 == j;
    assert (2 * j + 1) % 2 == 1 && (2 * j + 1) / 2 == j;
  }

  /** The sampled cubic puts every element under the shear 6 p h^3, and it
      vanishes with its slope at the clamp. */
  lemma {:induction false} CubicNodalShear(p: real, L: real, h: real, n: nat)
    ensures var X := CubicNodal(p, L, h, n);
      && ConstantShear(X, n, h, 6.0 * p * (h * h * h), L)
      && X[0] == 0.0 && X[1] == 0.0
  {
    var X, s := CubicNodal(p, L, h, n), 6.0 * p * (h * h * h);
    forall i | 0 <= i < n ensures ElementRows(X, i, h, s, L) {
      CubicNodalAt(p, L, h, n, i);
      CubicNodalAt(p, L, h, n, i + 1);
      NextNode(i, h);
      CubicRows(p, L, Node(i, h), Node(i + 1, h), h);
    }
    CubicNodalAt(p, L, h, n, 0);
  }

  /** A constant shear s over a mesh that ends at L, with c s equal to q,
      solves every free row of the cantilever under the tip load -q. */
  lemma {:induction false} ShearSolvesFreeRows(ke: Matrix, c: real, h: real, X: seq<real>, n: nat, s: real, L: real, q: real)
    requires BeamElement(ke, c, h) && |X| == GlobalSize(n) && ConstantShear(X, n, h, s, L)
    requires n >= 1 && Node(n, h) == L && c * s == q
    ensures forall r :: 2 <= r < GlobalSize(n) ==> AssembledForce(ke, X, n, r) == PointLoad(n, q)[r]
  {
    assert AssembledForce(ke, X, n, 2 * n) == -q && AssembledForce(ke, X, n, 2 * n + 1) == 0.0 by {
      TipNodeForces(ke, c, h, X, n, s, L);
      NegatedShearIsLoad(c, s, q);
      ZeroArmNoMoment(c, s, L - Node(n, h));
    }
    forall r | 2 <= r < GlobalSize(n) ensures AssembledForce(ke, X, n, r) == PointLoad(n, q)[r] {
      var j := r / 2;
      assert r == 2 * j || r == 2 * j + 1;
      if j < n {
        InteriorNodeForces(ke, c, h, X, n, s, L, j);
      }
    }
  }

  lemma {:induction false} NegatedShearIsLoad(c: real, s: real, q: real)
    requires c * s == q
    ensures c * -s == -q
  {
  }

  /** When a vector X vanishing at the clamp solves the free rows, it is
      the only such vector: a vector d vanishing at the clamp solves them
      exactly when it is X. */
  lemma {:induction false} UniqueSolution(ke: Matrix, c: real, h: real, n: nat, F: seq<real>, X: seq<real>, d: seq<real>)
    requires BeamElement(ke, c, h) && c != 0.0 && h != 0.0
    requires |X| == GlobalSize(n) && |d| == GlobalSize(n) && |F| == GlobalSize(n)
    requires X[0] == 0.0 && X[1] == 0.0 && d[0] == 0.0 && d[1] == 0.0
    requires forall r :: 2 <= r < GlobalSize(n) ==> AssembledForce(ke, X, n, r) == F[r]
    ensures (forall r :: 2 <= r < GlobalSize(n) ==> AssembledForce(ke, d, n, r) == F[r]) <==> d == X
  {
    if forall r :: 2 <= r < GlobalSize(n) ==> AssembledForce(ke, d, n, r) == F[r] {
      FreeRowsDetermine(ke, c, h, n, d, X);
    }
  }

  /** The free rows of K d == F, read through the assembly: row r of K d is
      the assembled force at r. */
  lemma {:induction false} FreeRowsAsForces(ke: Matrix, n: nat, d: seq<real>, F: seq<real>)
    requires IsMatrix(ke, 4, 4) && |d| == GlobalSize(n) && |F| == GlobalSize(n)
    ensures (forall r :: r in FreeDofs(n) ==> Dot(GlobalMatrix(ke, n)[r], d) == F[r]) <==>
            (forall r :: 2 <= r < GlobalSize(n) ==> AssembledForce(ke, d, n, r) == F[r])
  {
    var free := FreeDofs(n);
    FreeDofsShape(n);
    forall r | 2 <= r < GlobalSize(n) ensures r in free && Dot(GlobalMatrix(ke, n)[r], d) == AssembledForce(ke, d, n, r) {
      assert free[r - 2] == r;
      GlobalRowDot(ke, n, r, d);
    }
  }

  /** Scattering u into zeros gives X, for an X that vanishes at the clamp,
      exactly when u is X without the clamped node. */
  lemma {:induction false} ScatterIsVector(n: nat, u: seq<real>, X: seq<real>)
    requires |u| == 2 * n && |X| == GlobalSize(n) && X[0] == 0.0 && X[1] == 0.0
    ensures Scattered(Zeros(GlobalSize(n)), FreeDofs(n), u) == X <==> u == X[2..]
  {
    var d := Scattered(Zeros(GlobalSize(n)), FreeDofs(n), u);
    FreeScatter(n, u);
    if d == X {
      forall j | 0 <= j < 2 * n ensures u[j] == X[2..][j] {
        assert d[j + 2] == u[j];
      }
    }
    if u == X[2..] {
      forall k | 0 <= k < GlobalSize(n) ensures d[k] == X[k] {
        if k >= 2 {
          assert d[(k - 2) + 2] == u[k - 2];
        }
      }
    }
  }

  /** The exact nodal displacements of an n-element run: the deflection
      and slope of the exact solution, p = q / (6 E I), sampled at the nodes
      of spacing L / n. */
  function ExactDisplacements(E: real, I: real, L: real, q: real, n: nat): (X: seq<real>)
    requires n >= 1 && E * I != 0.0
    ensures |X| == GlobalSize(n)
  {
    CubicNodal(q / (6.0 * (E * I)), L, ElementLength(L, n), n)
  }

  /** E I / h^3 is nonzero with E I and h. */
  lemma {:induction false} ElementScaleNonzero(EI: real, h: real)
    requires EI != 0.0 && h != 0.0
    ensures EI / (h * h * h) != 0.0
  {
    assert h * h * h != 0.0;
  }

  /** The exact nodal displacements vanish at the clamp and satisfy every
      free row of the assembled system: the assembled force is the load -q
      at the tip deflection and zero at every other free degree of
      freedom. */
  lemma {:induction false} ExactSolvesFreeRows(E: real, I: real, L: real, q: real, n: nat)
    requires n >= 1 && L != 0.0 && E * I != 0.0
    ensures var ke, X := ElementStiffness(E, I, ElementLength(L, n)), ExactDisplacements(E, I, L, q, n);
      && X[0] == 0.0 && X[1] == 0.0
      && forall r :: 2 <= r < GlobalSize(n) ==> AssembledForce(ke, X, n, r) == PointLoad(n, q)[r]
  {
    var h := ElementLength(L, n);
    var ke, X := ElementStiffness(E, I, h), ExactDisplacements(E, I, L, q, n);
    var c, p := E * I / (h * h * h), q / (6.0 * (E * I));
    var s := 6.0 * p * (h * h * h);
    assert BeamElement(ke, c, h) by {
      ElementStiffnessIsBeamElement(E, I, h);
    }
    assert ConstantShear(X, n, h, s, L) && X[0] == 0.0 && X[1] == 0.0 by {
      CubicNodalShear(p, L, h, n);
    }
    assert c * s == q by {
      ShearIsLoad(E * I, h, q);
    }
    assert Node(n, h) == L;
    ShearSolvesFreeRows(ke, c, h, X, n, s, L, q);
  }

  /** The reduced system handed to the solver, read through the assembly:
      u solves it exactly when the scattered displacements d produce the
      load as assembled force at every free degree of freedom. */
  lemma {:induction false} ReducedSystemAsForces(ke: Matrix, n: nat, F: seq<real>, u: seq<real>)
    requires IsMatrix(ke, 4, 4) && |F| == GlobalSize(n) && |u| == 2 * n
    ensures var d := Scattered(Zeros(GlobalSize(n)), FreeDofs(n), u);
      MatVec(ReduceMatrix(GlobalMatrix(ke, n), FreeDofs(n)), u) == ReduceVector(F, FreeDofs(n)) <==>
      forall r :: 2 <= r < GlobalSize(n) ==> AssembledForce(ke, d, n, r) == F[r]
  {
    var d := Scattered(Zeros(GlobalSize(n)), FreeDofs(n), u);
    ReducedSystemMatchesFullSystem(GlobalMatrix(ke, n), F, FixedDofs(), u);
    FreeRowsAsForces(ke, n, d, F);
  }

  /** Once some X vanishing at the clamp solves the free rows of K X == F,
      the reduced system has exactly one solution: X without the clamped
      node. */
  lemma {:induction false} ReducedSolutionUnique(ke: Matrix, c: real, h: real, n: nat, F: seq<real>, X: seq<real>, u: seq<real>)
    requires BeamElement(ke, c, h) && c != 0.0 && h != 0.0
    requires |F| == GlobalSize(n) && |X| == GlobalSize(n) && |u| == 2 * n
    requires X[0] == 0.0 && X[1] == 0.0
    requires forall r :: 2 <= r < GlobalSize(n) ==> AssembledForce(ke, X, n, r) == F[r]
    ensures MatVec(ReduceMatrix(GlobalMatrix(ke, n), FreeDofs(n)), u) == ReduceVector(F, FreeDofs(n)) <==> u == X[2..]
  {
    var d := Scattered(Zeros(GlobalSize(n)), FreeDofs(n), u);
    ReducedSystemAsForces(ke, n, F, u);
    FreeScatter(n, u);
    UniqueSolution(ke, c, h, n, F, X, d);
    ScatterIsVector(n, u, X);
  }

  /** Nodal exactness: for every number of elements n, the reduced system
      Kff u == Ff handed to the solver has exactly one solution, the exact
      deflection and slope of the cantilever at the free nodes. */
  lemma {:induction false} NodallyExact(E: real, I: real, L: real, q: real, n: nat, u: seq<real>)
    requires n >= 1 && L != 0.0 && E * I != 0.0 && |u| == 2 * n
    ensures var K := GlobalMatrix(ElementStiffness(E, I, ElementLength(L, n)), n);
      MatVec(ReduceMatrix(K, FreeDofs(n)), u) == ReduceVector(PointLoad(n, q), FreeDofs(n)) <==>
      u == ExactDisplacements(E, I, L, q, n)[2..]
  {
    var h := ElementLength(L, n);
    var ke, c := ElementStiffness(E, I, h), E * I / (h * h * h);
    ExactSolvesFreeRows(E, I, L, q, n);
    assert BeamElement(ke, c, h) && c != 0.0 by {
      ElementStiffnessIsBeamElement(E, I, h);
      ElementScaleNonzero(E * I, h);
    }
    ReducedSolutionUnique(ke, c, h, n, PointLoad(n, q), ExactDisplacements(E, I, L, q, n), u);
  }

  /** The tip of the exact solution: deflection -q L^3 / (3 E I), the
      negated `theoretical_max_displacement`, and slope -q L^2 / (2 E I). */
  lemma {:induction false} ExactTip(E: real, I: real, L: real, q: real, n: nat)
    requires n >= 1 && E * I != 0.0
    ensures var X := ExactDisplacements(E, I, L, q, n);
      X[2 * n] == -TheoreticalMaxDisplacement(q, L, E, I) && X[2 * n + 1] == -(q * (L * L)) / (2.0 * (E * I))
  {
    var h, p := ElementLength(L, n), q / (6.0 * (E * I));
    assert Node(n, h) == L;
    CubicNodalAt(p, L, h, n, n);
    CubicTip(q, L, E, I);
  }

  /** The cubic and its slope at L, with p = q / (6 E I). */
  lemma {:induction false} CubicTip(q: real, L: real, E: real, I: real)
    requires E * I != 0.0
    ensures var p := q / (6.0 * (E * I));
      && Deflection(p, L, L) == -TheoreticalMaxDisplacement(q, L, E, I)
      && Slope(p, L, L) == -(q * (L * L)) / (2.0 * (E * I))
  {
    var p, delta := q / (6.0 * (E * I)), TheoreticalMaxDisplacement(q, L, E, I);
    assert p * (6.0 * (E * I)) == q;
    assert -Deflection(p, L, L) * (3.0 * (E * I)) == q * (L * L * L);
    CancelNonzeroFactor(3.0 * (E * I), delta, -Deflection(p, L, L));
  }

  /** On [0, L] the magnitude |p| x^2 (3L - x) of the cubic grows with x: a
      point farther from the clamp deflects at least as much. */
  lemma {:induction false} DeflectionGrows(p: real, L: real, a: real, b: real)
    requires 0.0 <= a <= b <= L
    ensures Abs(Deflection(p, L, a)) <= Abs(Deflection(p, L, b))
  {
    var ga, gb := a * a * (3.0 * L - a), b * b * (3.0 * L - b);
    CubicShapeGrows(L, a, b);
    assert Deflection(p, L, a) == -(p * ga) && Deflection(p, L, b) == -(p * gb);
    ScaledMagnitudeGrows(p, ga, gb);
  }

  /** x^2 (3L - x) is nonnegative and nondecreasing on [0, L]. */
  lemma {:induction false} CubicShapeGrows(L: real, a: real, b: real)
    requires 0.0 <= a <= b <= L
    ensures 0.0 <= a * a * (3.0 * L - a) <= b * b * (3.0 * L - b)
  {
    MulMonotone(0.0, a * a, 3.0 * L - a);
    SquareSumBound(L, a, b);
    MulMonotone(0.0, b - a, 3.0 * L * (b + a) - (b * b + a * b + a * a));
    assert b * b * (3.0 * L - b) - a * a * (3.0 * L - a) ==
      (b - a) * (3.0 * L * (b + a) - (b * b + a * b + a * a));
  }

  /** b^2 + a b + a^2 <= 3L (a + b) on [0, L]. */
  lemma {:induction false} SquareSumBound(L: real, a: real, b: real)
    requires 0.0 <= a <= b <= L
    ensures b * b + a * b + a * a <= 3.0 * L * (b + a)
  {
    MulMonotone(b, L, b);
    MulMonotone(a, L, b);
    MulMonotone(a, L, a);
    AddBounds(b * b, a * b, a * a, L * b, L * b, L * a);
    MulMonotone(0.0, L, a);
    MulMonotone(0.0, L, b);
    assert 3.0 * L * (b + a) == 3.0 * (L * b) + 3.0 * (L * a);
  }

  lemma {:induction false} AddBounds(x0: real, x1: real, x2: real, y0: real, y1: real, y2: real)
    requires x0 <= y0 && x1 <= y1 && x2 <= y2
    ensures x0 + x1 + x2 <= y0 + y1 + y2
  {
  }

  lemma {:induction false} MulMonotone(x: real, y: real, z: real)
    requires x <= y && 0.0 <= z
    ensures x * z <= y * z
  {
    assert (y - x) * z >= 0.0;
  }

  /** Scaling by any p keeps the order of the magnitudes of nonnegative
      values. */
  lemma {:induction false} ScaledMagnitudeGrows(p: real, x: real, y: real)
    requires 0.0 <= x <= y
    ensures Abs(-(p * x)) <= Abs(-(p * y))
  {
    if p >= 0.0 {
      assert p * x <= p * y;
    } else {
      assert -p * x <= -p * y;
    }
  }

  /** Along the exact solution, the deflection magnitude never decreases
      from the clamp to the tip (for a beam of positive length). */
  lemma {:induction false} ExactDeflectionGrows(E: real, I: real, L: real, q: real, n: nat, i: nat, j: nat)
    requires n >= 1 && L > 0.0 && E * I != 0.0 && i <= j <= n
    ensures var X := ExactDisplacements(E, I, L, q, n);
      Abs(X[2 * i]) <= Abs(X[2 * j])
  {
    var h, p := ElementLength(L, n), q / (6.0 * (E * I));
    assert 0.0 < h;
    assert 0.0 <= Node(i, h) <= Node(j, h) <= Node(n, h) by {
      assert (i as real) <= (j as real) <= (n as real);
    }
    assert Node(n, h) == L;
    CubicNodalAt(p, L, h, n, i);
    CubicNodalAt(p, L, h, n, j);
    DeflectionGrows(p, L, Node(i, h), Node(j, h));
  }
}
