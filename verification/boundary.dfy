/** Boundary conditions: the split of the degrees of freedom into fixed and
    free ones, the reduction of the system to the free ones, and the scatter
    of a reduced solution back into the full displacement vector. Fixed
    degrees of freedom have a prescribed displacement of zero. */
module Boundary {
  import opened Matrices
  import opened Assembly

  /** `fixed = [0, 1]`: displacement and rotation of the clamped node 0. */
  function FixedDofs(): seq<nat> {
    [0, 1]
  }

  predicate StrictlyIncreasing(s: seq<nat>) {
    forall j, k :: 0 <= j < k < |s| ==> s[j] < s[k]
  }

  /** `np.setdiff1d(np.arange(total), excluded)`: the indices below total that
      are not excluded, in ascending order and without repetition. */
  function SetDiff(total: nat, excluded: seq<nat>): (kept: seq<nat>)
    ensures StrictlyIncreasing(kept)
    ensures forall k: nat :: k in kept <==> k < total && k !in excluded
    ensures forall j :: 0 <= j < |kept| ==> kept[j] < total
  {
    if total == 0 then []
    else
      var below := SetDiff(total - 1, excluded);
      if total - 1 in excluded then below else below + [total - 1]
  }

  /** Every index from 2 up to total - 1 is free, in order. */
  lemma {:induction false} SetDiffAboveFixed(total: nat)
    requires total >= 2
    ensures var free := SetDiff(total, FixedDofs());
      |free| == total - 2 && forall j :: 0 <= j < |free| ==> free[j] == j + 2
  {
    if total > 2 {
      SetDiffAboveFixed(total - 1);
    } else {
      assert SetDiff(1, FixedDofs()) == [];
    }
  }

  /** The free degrees of freedom of an n-element cantilever. */
  function FreeDofs(n: nat): (free: seq<nat>)
    ensures |free| == 2 * n && forall j :: 0 <= j < |free| ==> free[j] == j + 2
  {
    SetDiffAboveFixed(GlobalSize(n));
    SetDiff(GlobalSize(n), FixedDofs())
  }

  /** The free set is 2, 3, ..., 2n + 1: 2n indices, disjoint from the fixed
      set, and together with it covering every degree of freedom. */
  lemma {:induction false} FreeDofsShape(n: nat)
    ensures var free := FreeDofs(n);
      && |free| == 2 * n
      && (forall j :: 0 <= j < |free| ==> free[j] == j + 2)
      && (forall k :: k in free ==> k !in FixedDofs())
      && (forall k :: 0 <= k < GlobalSize(n) ==> k in free || k in FixedDofs())
  {
    SetDiffAboveFixed(GlobalSize(n));
  }

  /** `F[free]`: the entries of v at the given indices, in their order. */
  function ReduceVector(v: seq<real>, idx: seq<nat>): (r: seq<real>)
    requires forall j :: 0 <= j < |idx| ==> idx[j] < |v|
    ensures |r| == |idx|
  {
    seq(|idx|, j requires 0 <= j < |idx| => v[idx[j]])
  }

  /** `K[free, :][:, free]`: first the rows at the given indices, then, in
      each of them, the columns at the same indices. */
  function ReduceMatrix(K: Matrix, idx: seq<nat>): (Kr: Matrix)
    requires IsSquare(K)
    requires forall j :: 0 <= j < |idx| ==> idx[j] < |K|
    ensures IsMatrix(Kr, |idx|, |idx|)
    ensures forall i :: 0 <= i < |idx| ==> Kr[i] == ReduceVector(K[idx[i]], idx)
  {
    var rows := seq(|idx|, i requires 0 <= i < |idx| => K[idx[i]]);
    seq(|idx|, i requires 0 <= i < |idx| => ReduceVector(rows[i], idx))
  }

  /** The reduction law: entry (i, j) of the reduced matrix is the global
      entry at the i-th and j-th free index, and the reduced load vector is
      the global one at the free indices. */
  lemma {:induction false} ReductionLaw(K: Matrix, F: seq<real>, n: nat)
    requires IsMatrix(K, GlobalSize(n), GlobalSize(n)) && |F| == GlobalSize(n)
    ensures var free := FreeDofs(n);
      var Kff, Ff := ReduceMatrix(K, free), ReduceVector(F, free);
      && IsMatrix(Kff, 2 * n, 2 * n) && |Ff| == 2 * n
      && (forall i, j :: 0 <= i < 2 * n && 0 <= j < 2 * n ==>
            Kff[i][j] == K[i + 2][j + 2] && Kff[i][j] == K[free[i]][free[j]])
      && (forall i :: 0 <= i < 2 * n ==> Ff[i] == F[i + 2] && Ff[i] == F[free[i]])
  {
    FreeDofsShape(n);
  }

  /** Reduction keeps symmetry. */
  lemma {:induction false} ReduceMatrixSymmetric(K: Matrix, idx: seq<nat>)
    requires IsSquare(K) && Symmetric(K)
    requires forall j :: 0 <= j < |idx| ==> idx[j] < |K|
    ensures Symmetric(ReduceMatrix(K, idx))
  {
    var Kr := ReduceMatrix(K, idx);
    forall i, j | 0 <= i < |idx| && 0 <= j < |idx| ensures Kr[i][j] == Kr[j][i] {
      assert Kr[i][j] == K[idx[i]][idx[j]] && Kr[j][i] == K[idx[j]][idx[i]];
    }
  }

  /** `base[idx] = vals`: the writes vals[0] to idx[0], vals[1] to idx[1], ...
      applied to base in order. */
  function Scattered(base: seq<real>, idx: seq<nat>, vals: seq<real>): (d: seq<real>)
    requires |idx| == |vals|
    requires forall j :: 0 <= j < |idx| ==> idx[j] < |base|
    ensures |d| == |base|
  {
    if |idx| == 0 then base
    else
      var last := |idx| - 1;
      Scattered(base, idx[..last], vals[..last])[idx[last] := vals[last]]
  }

  /** With distinct indices, every written index holds its value and every
      other entry keeps its old value. */
  lemma {:induction false} ScatteredAt(base: seq<real>, idx: seq<nat>, vals: seq<real>)
    requires |idx| == |vals| && StrictlyIncreasing(idx)
    requires forall j :: 0 <= j < |idx| ==> idx[j] < |base|
    ensures var d := Scattered(base, idx, vals);
      && (forall k :: 0 <= k < |idx| ==> d[idx[k]] == vals[k])
      && (forall j :: 0 <= j < |base| && j !in idx ==> d[j] == base[j])
  {
    if |idx| > 0 {
      var last := |idx| - 1;
      ScatteredAt(base, idx[..last], vals[..last]);
      forall k | 0 <= k < last ensures idx[..last][k] == idx[k] && idx[k] != idx[last] { }
    }
  }

  /** `displacements[free] = u`, in place. */
  method ScatterInto(d: array<real>, idx: seq<nat>, vals: seq<real>)
    requires |idx| == |vals|
    requires forall j :: 0 <= j < |idx| ==> idx[j] < d.Length
    modifies d
    ensures d[..] == Scattered(old(d[..]), idx, vals)
  {
    for k := 0 to |idx|
      invariant d[..] == Scattered(old(d[..]), idx[..k], vals[..k])
    {
      assert idx[..k + 1][..k] == idx[..k] && vals[..k + 1][..k] == vals[..k];
      d[idx[k]] := vals[k];
    }
    assert idx[..|idx|] == idx && vals[..|vals|] == vals;
  }

  /** Writing the last value into a vector whose entry there is still zero
      adds row[idx[last]] * vals[last] to the inner product. */
  lemma {:induction false} ScatterLastDot(row: seq<real>, idx: seq<nat>, vals: seq<real>)
    requires |idx| == |vals| > 0 && StrictlyIncreasing(idx)
    requires forall j :: 0 <= j < |idx| ==> idx[j] < |row|
    ensures Dot(row, Scattered(Zeros(|row|), idx, vals)) ==
      Dot(row, Scattered(Zeros(|row|), idx[..|idx| - 1], vals[..|idx| - 1])) + row[idx[|idx| - 1]] * vals[|idx| - 1]
  {
    var last := |idx| - 1;
    var prevIdx, prevVals := idx[..last], vals[..last];
    var prev := Scattered(Zeros(|row|), prevIdx, prevVals);
    assert Scattered(Zeros(|row|), idx, vals) == prev[idx[last] := vals[last]];
    assert prev[idx[last]] == 0.0 by {
      assert StrictlyIncreasing(prevIdx);
      ScatteredAt(Zeros(|row|), prevIdx, prevVals);
      assert idx[last] !in prevIdx;
    }
    calc {
      Dot(row, Scattered(Zeros(|row|), idx, vals));
      Dot(row, prev[idx[last] := vals[last]]);
      { DotFill(row, prev, idx[last], vals[last]); }
      Dot(row, prev) + row[idx[last]] * vals[last];
    }
  }

  /** Gathering one more index adds row[idx[last]] * vals[last]. */
  lemma {:induction false} GatherLastDot(row: seq<real>, idx: seq<nat>, vals: seq<real>)
    requires |idx| == |vals| > 0
    requires forall j :: 0 <= j < |idx| ==> idx[j] < |row|
    ensures var last := |idx| - 1;
      Dot(ReduceVector(row, idx), vals) ==
      Dot(ReduceVector(row, idx[..last]), vals[..last]) + row[idx[last]] * vals[last]
  {
    var last := |idx| - 1;
    assert ReduceVector(row, idx) == ReduceVector(row, idx[..last]) + [row[idx[last]]];
    assert vals == vals[..last] + [vals[last]];
    DotSnoc(ReduceVector(row, idx[..last]), vals[..last], row[idx[last]], vals[last]);
  }

  /** Gather and scatter are adjoint: a row times the scattered reduced
      vector equals the gathered row times the reduced vector. */
  lemma {:induction false} GatherScatterDot(row: seq<real>, idx: seq<nat>, vals: seq<real>)
    requires |idx| == |vals| && StrictlyIncreasing(idx)
    requires forall j :: 0 <= j < |idx| ==> idx[j] < |row|
    ensures Dot(row, Scattered(Zeros(|row|), idx, vals)) == Dot(ReduceVector(row, idx), vals)
  {
    if |idx| == 0 {
      DotZeros(row);
    } else {
      var last := |idx| - 1;
      ScatterLastDot(row, idx, vals);
      GatherLastDot(row, idx, vals);
      GatherScatterDot(row, idx[..last], vals[..last]);
    }
  }

  /** The reduced system is the full one restricted to the kept rows: the
      scattered displacement vector d is zero at every excluded index, and
      u satisfies Kff * u == Ff exactly when d satisfies row r of
      K * d == F for every kept index r. */
  lemma {:induction false} ReducedSystemMatchesFullSystem(K: Matrix, F: seq<real>, excluded: seq<nat>, u: seq<real>)
    requires IsSquare(K) && |F| == |K|
    requires |u| == |SetDiff(|K|, excluded)|
    ensures var free := SetDiff(|K|, excluded);
      var d := Scattered(Zeros(|K|), free, u);
      && (forall k :: 0 <= k < |K| && k in excluded ==> d[k] == 0.0)
      && (MatVec(ReduceMatrix(K, free), u) == ReduceVector(F, free) <==>
          forall r :: r in free ==> Dot(K[r], d) == F[r])
  {
    var free := SetDiff(|K|, excluded);
    ScatteredAt(Zeros(|K|), free, u);
    ReducedRowsIff(K, F, free, u);
  }

  /** For any increasing index list, Kff * u == Ff holds exactly when the
      scattered vector satisfies every kept row of K * d == F. */
  lemma {:induction false} ReducedRowsIff(K: Matrix, F: seq<real>, free: seq<nat>, u: seq<real>)
    requires IsSquare(K) && |F| == |K| && |u| == |free| && StrictlyIncreasing(free)
    requires forall j :: 0 <= j < |free| ==> free[j] < |K|
    ensures var d := Scattered(Zeros(|K|), free, u);
      MatVec(ReduceMatrix(K, free), u) == ReduceVector(F, free) <==>
      forall r :: r in free ==> Dot(K[r], d) == F[r]
  {
    var d := Scattered(Zeros(|K|), free, u);
    var Kff, Ff := ReduceMatrix(K, free), ReduceVector(F, free);
    forall i | 0 <= i < |free| ensures MatVec(Kff, u)[i] == Dot(K[free[i]], d) {
      GatherScatterDot(K[free[i]], free, u);
    }
    if MatVec(Kff, u) == Ff {
      forall r | r in free ensures Dot(K[r], d) == F[r] {
        var i :| 0 <= i < |free| && free[i] == r;
        assert MatVec(Kff, u)[i] == Ff[i];
      }
    }
    if forall r :: r in free ==> Dot(K[r], d) == F[r] {
      forall i | 0 <= i < |free| ensures MatVec(Kff, u)[i] == Ff[i] {
        assert free[i] in free;
      }
    }
  }

  /** Scattering a reduced solution of an n-element cantilever into zeros:
      the clamped node stays at rest and free index j lands at global index
      j + 2. */
  lemma {:induction false} FreeScatter(n: nat, u: seq<real>)
    requires |u| == 2 * n
    ensures var d := Scattered(Zeros(GlobalSize(n)), FreeDofs(n), u);
      && |d| == GlobalSize(n) && d[0] == 0.0 && d[1] == 0.0
      && forall j :: 0 <= j < 2 * n ==> d[j + 2] == u[j]
  {
    var free := FreeDofs(n);
    FreeDofsShape(n);
    ScatteredAt(Zeros(GlobalSize(n)), free, u);
    assert 0 !in free && 1 !in free;
    forall j | 0 <= j < 2 * n
      ensures Scattered(Zeros(GlobalSize(n)), free, u)[j + 2] == u[j]
    {
      assert free[j] == j + 2;
    }
  }
}
