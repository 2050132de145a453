/** The 4x4 Euler-Bernoulli stiffness matrix of one two-node beam element.
    Local degrees of freedom, in order: transverse displacement and rotation
    of the left node, then of the right node. */
module Stiffness {
  import opened Matrices

  /** The polynomial pattern of the element matrix before scaling by E*I/h^3. */
  function BendingPattern(h: real): (p: Matrix)
    ensures IsMatrix(p, 4, 4)
  {
    [[12.0,      6.0 * h,     -12.0,      6.0 * h],
     [6.0 * h,   4.0 * h * h, -6.0 * h,   2.0 * h * h],
     [-12.0,     -6.0 * h,    12.0,       -6.0 * h],
     [6.0 * h,   2.0 * h * h, -6.0 * h,   4.0 * h * h]]
  }

  /** Entry-wise product of a scalar and a matrix. */
  function Scale(s: real, m: Matrix): (r: Matrix)
    ensures |r| == |m|
    ensures forall i :: 0 <= i < |m| ==> |r[i]| == |m[i]|
    ensures forall i, j :: 0 <= i < |m| && 0 <= j < |m[i]| ==> r[i][j] == s * m[i][j]
  {
    seq(|m|, i requires 0 <= i < |m| => seq(|m[i]|, j requires 0 <= j < |m[i]| => s * m[i][j]))
  }

  /** `element_stiffness(E, I, h_elem)`: E*I/h^3 times the bending pattern.
      Python raises on h == 0, so the caller must not pass it. */
  function ElementStiffness(E: real, I: real, h: real): (ke: Matrix)
    requires h != 0.0
    ensures IsMatrix(ke, 4, 4) && Symmetric(ke)
  {
    Scale(E * I / (h * h * h), BendingPattern(h))
  }

  /** A vector the pattern maps to zero is mapped to zero by every multiple
      of the pattern. */
  lemma {:induction false} ScaledNullVector(s: real, p: Matrix, x: seq<real>)
    requires IsMatrix(p, |p|, |x|)
    requires MatVec(p, x) == Zeros(|p|)
    ensures MatVec(Scale(s, p), x) == Zeros(|p|)
  {
    var m := Scale(s, p);
    forall i | 0 <= i < |p| ensures MatVec(m, x)[i] == 0.0 {
      DotScale(s, m[i], p[i], x);
      assert Dot(p[i], x) == MatVec(p, x)[i];
    }
  }

  /** A rigid translation of the element (both nodes displaced by 1, no
      rotation) produces no nodal forces. */
  lemma {:induction false} ElementStiffnessTranslationFree(E: real, I: real, h: real)
    requires h != 0.0
    ensures MatVec(ElementStiffness(E, I, h), [1.0, 0.0, 1.0, 0.0]) == Zeros(4)
  {
    var p := BendingPattern(h);
    var t := [1.0, 0.0, 1.0, 0.0];
    forall i | 0 <= i < 4 ensures MatVec(p, t)[i] == 0.0 {
      Dot4(p[i], t);
    }
    ScaledNullVector(E * I / (h * h * h), p, t);
  }

  /** A rigid rotation by a unit angle about the left node (transverse
      displacement 0 and h, both rotations 1) produces no nodal forces. */
  lemma {:induction false} ElementStiffnessRotationFree(E: real, I: real, h: real)
    requires h != 0.0
    ensures MatVec(ElementStiffness(E, I, h), [0.0, 1.0, h, 1.0]) == Zeros(4)
  {
    var p := BendingPattern(h);
    var t := [0.0, 1.0, h, 1.0];
    forall i | 0 <= i < 4 ensures MatVec(p, t)[i] == 0.0 {
      Dot4(p[i], t);
    }
    ScaledNullVector(E * I / (h * h * h), p, t);
  }

  /** The right-node block repeats the left-node block with the coupling
      term negated, and the cross blocks are each other's transpose. */
  lemma {:induction false} ElementStiffnessBlocks(E: real, I: real, h: real)
    requires h != 0.0
    ensures var ke := ElementStiffness(E, I, h);
      && ke[2][2] == ke[0][0] && ke[3][3] == ke[1][1]
      && ke[2][3] == -ke[0][1] && ke[3][2] == -ke[1][0]
      && ke[0][2] == -ke[0][0] && ke[2][0] == -ke[0][0]
  {
  }
}
