/** The product of the assembled stiffness matrix with a displacement vector,
    read element by element: row r of K·d is the sum of the nodal forces
    that the elements covering r produce under their own four
    displacements. This is the element-by-element reading of the assembly
    loop, and the tool for the nodal-exactness results. */
module Equilibrium {
  import opened Matrices
  import opened Assembly

  /** The displacements at element i's four degrees of freedom. */
  function Gather(d: seq<real>, i: nat): (ue: seq<real>)
    requires 2 * i + 4 <= |d|
    ensures |ue| == 4 && forall a :: 0 <= a < 4 ==> ue[a] == d[2 * i + a]
  {
    d[2 * i .. 2 * i + 4]
  }

  /** The nodal forces of element i under d: ke times its displacements. */
  function ElementForces(ke: Matrix, d: seq<real>, i: nat): (f: seq<real>)
    requires IsMatrix(ke, 4, 4) && 2 * i + 4 <= |d|
    ensures |f| == 4
  {
    MatVec(ke, Gather(d, i))
  }

  /** The force at global degree of freedom r summed over the first k
      elements (those whose window covers r). */
  function AssembledForce(ke: Matrix, d: seq<real>, k: nat, r: nat): real
    requires IsMatrix(ke, 4, 4) && 2 * k + 2 <= |d|
  {
    if k == 0 then 0.0
    else
      AssembledForce(ke, d, k - 1, r) +
      (if Covers(k - 1, r) then ElementForces(ke, d, k - 1)[r - 2 * (k - 1)] else 0.0)
  }

  /** Row r of the matrix accumulated from the first k elements, cut to
      length m. */
  function EntryRow(ke: Matrix, k: nat, r: nat, m: nat): (row: seq<real>)
    requires IsMatrix(ke, 4, 4)
    ensures |row| == m && forall c :: 0 <= c < m ==> row[c] == GlobalEntry(ke, k, r, c)
  {
    seq(m, c requires 0 <= c < m => GlobalEntry(ke, k, r, c))
  }

  /** Element i's own contribution to row r, cut to length m. */
  function ContributionRow(ke: Matrix, i: nat, r: nat, m: nat): (row: seq<real>)
    requires IsMatrix(ke, 4, 4)
    ensures |row| == m && forall c :: 0 <= c < m ==> row[c] == Contribution(ke, i, r, c)
  {
    seq(m, c requires 0 <= c < m => Contribution(ke, i, r, c))
  }

  /** Element i's contribution to row r, applied to d, is the force that
      element i produces at r, or nothing when it does not cover r. */
  lemma {:induction false} ContributionRowDot(ke: Matrix, i: nat, r: nat, d: seq<real>)
    requires IsMatrix(ke, 4, 4) && 2 * i + 4 <= |d|
    ensures Dot(ContributionRow(ke, i, r, |d|), d) ==
      if Covers(i, r) then ElementForces(ke, d, i)[r - 2 * i] else 0.0
  {
    var row := ContributionRow(ke, i, r, |d|);
    forall c | 0 <= c < |d|
      ensures row[c] == if Covers(i, r) && Covers(i, c) then ke[r - 2 * i][c - 2 * i] else 0.0
    {
      ContributionLocal(ke, i, r, c);
    }
    if Covers(i, r) {
      DotWindow(row, d, 2 * i, 4);
      assert row[2 * i .. 2 * i + 4] == ke[r - 2 * i];
      assert Dot(ke[r - 2 * i], Gather(d, i)) == ElementForces(ke, d, i)[r - 2 * i];
    } else {
      DotZeroLeft(row, d);
    }
  }

  /** Row r of the first k elements' matrix applied to d is the assembled
      force at r. */
  lemma {:induction false} EntryRowDot(ke: Matrix, k: nat, r: nat, d: seq<real>)
    requires IsMatrix(ke, 4, 4) && 2 * k + 2 <= |d|
    ensures Dot(EntryRow(ke, k, r, |d|), d) == AssembledForce(ke, d, k, r)
  {
    if k == 0 {
      DotZeroLeft(EntryRow(ke, k, r, |d|), d);
    } else {
      DotAddLeft(EntryRow(ke, k - 1, r, |d|), ContributionRow(ke, k - 1, r, |d|),
        EntryRow(ke, k, r, |d|), d);
      EntryRowDot(ke, k - 1, r, d);
      ContributionRowDot(ke, k - 1, r, d);
    }
  }

  /** Row r of the assembled K times d is the sum of the element forces at
      r: K·d is assembled from the element products ke·d_e exactly as K is
      assembled from ke. */
  lemma {:induction false} GlobalRowDot(ke: Matrix, n: nat, r: nat, d: seq<real>)
    requires IsMatrix(ke, 4, 4) && |d| == GlobalSize(n) && r < GlobalSize(n)
    ensures Dot(GlobalMatrix(ke, n)[r], d) == AssembledForce(ke, d, n, r)
  {
    assert GlobalMatrix(ke, n)[r] == EntryRow(ke, n, r, |d|);
    EntryRowDot(ke, n, r, d);
  }

  /** The force at degree of freedom s of node j collects the right-node
      force of element j - 1 and the left-node force of element j,
      whichever exist among the first k elements. */
  lemma {:induction false} NodeForce(ke: Matrix, d: seq<real>, k: nat, j: nat, s: nat)
    requires IsMatrix(ke, 4, 4) && 2 * k + 2 <= |d| && s < 2
    ensures AssembledForce(ke, d, k, 2 * j + s) ==
      (if 1 <= j <= k then ElementForces(ke, d, j - 1)[2 + s] else 0.0) +
      (if j < k then ElementForces(ke, d, j)[s] else 0.0)
  {
    if k > 0 {
      NodeForce(ke, d, k - 1, j, s);
    }
  }
}
