/** Assembly of the global stiffness matrix and construction of the load
    vector for a cantilever of n equal elements (n + 1 nodes, two degrees of
    freedom per node: transverse displacement at 2*node, rotation at
    2*node + 1). */
module Assembly {
  import opened Matrices
  import opened Stiffness

  /** Number of global degrees of freedom, 2 * (n + 1). */
  function GlobalSize(n: nat): nat {
    2 * (n + 1)
  }

  /** `h_elem = L / N`; Python raises on N == 0. */
  function ElementLength(L: real, n: nat): (h: real)
    requires n >= 1
    ensures h * (n as real) == L
  {
    L / (n as real)
  }

  /** The global indices of element i's local degrees of freedom: those of
      its left node followed by those of its right node. */
  function ElementDofs(i: nat): (dof: seq<nat>)
    ensures |dof| == 4
    ensures forall a :: 0 <= a < 4 ==> dof[a] == 2 * i + a
  {
    [2 * i, 2 * i + 1, 2 * (i + 1), 2 * (i + 1) + 1]
  }

  /** Every element of the mesh maps its four local degrees of freedom to
      four distinct global ones, all inside the global system. */
  lemma {:induction false} ElementDofsInRange(n: nat, i: nat)
    requires i < n
    ensures var dof := ElementDofs(i);
      && (forall a, b :: 0 <= a < b < 4 ==> dof[a] != dof[b])
      && (forall a :: 0 <= a < 4 ==> dof[a] < GlobalSize(n))
  {
  }

  /** Neighbouring elements share exactly the two degrees of freedom of
      their common node. */
  lemma {:induction false} NeighboursShareOneNode(i: nat)
    ensures var left, right := ElementDofs(i), ElementDofs(i + 1);
      (set a, b | 0 <= a < 4 && 0 <= b < 4 && left[a] == right[b] :: left[a])
        == {2 * (i + 1), 2 * (i + 1) + 1}
  {
    var left, right := ElementDofs(i), ElementDofs(i + 1);
    var shared := set a, b | 0 <= a < 4 && 0 <= b < 4 && left[a] == right[b] :: left[a];
    assert left[2] == right[0] && left[3] == right[1];
    assert 2 * (i + 1) in shared && 2 * (i + 1) + 1 in shared;
  }

  /** True when the element window of element i covers global index r. */
  predicate Covers(i: nat, r: nat) {
    2 * i <= r < 2 * i + 4
  }

  /** What the `for b` loop of row a of element i has added to global entry
      (r, c) after its first k iterations: the sum of ke[a][b] over the b < k
      that element i maps to (r, c). */
  function RowSum(ke: Matrix, i: nat, r: nat, c: nat, a: nat, k: nat): real
    requires IsMatrix(ke, 4, 4) && a < 4 && k <= 4
  {
    if k == 0 then 0.0
    else
      var dof := ElementDofs(i);
      RowSum(ke, i, r, c, a, k - 1) + (if dof[a] == r && dof[k - 1] == c then ke[a][k - 1] else 0.0)
  }

  /** What the `for a` loop of element i has added to global entry (r, c)
      after its first k iterations: the full rows a < k. */
  function RowsSum(ke: Matrix, i: nat, r: nat, c: nat, k: nat): real
    requires IsMatrix(ke, 4, 4) && k <= 4
  {
    if k == 0 then 0.0 else RowsSum(ke, i, r, c, k - 1) + RowSum(ke, i, r, c, k - 1, 4)
  }

  /** Everything element i adds to global entry (r, c). */
  function Contribution(ke: Matrix, i: nat, r: nat, c: nat): real
    requires IsMatrix(ke, 4, 4)
  {
    RowsSum(ke, i, r, c, 4)
  }

  /** Global entry (r, c) after the first n elements have been added to a
      zero matrix. */
  function GlobalEntry(ke: Matrix, n: nat, r: nat, c: nat): real
    requires IsMatrix(ke, 4, 4)
  {
    if n == 0 then 0.0 else GlobalEntry(ke, n - 1, r, c) + Contribution(ke, n - 1, r, c)
  }

  /** The assembled global matrix as a value. */
  function GlobalMatrix(ke: Matrix, n: nat): (K: Matrix)
    requires IsMatrix(ke, 4, 4)
    ensures IsMatrix(K, GlobalSize(n), GlobalSize(n))
  {
    seq(GlobalSize(n), r requires 0 <= r < GlobalSize(n) =>
      seq(GlobalSize(n), c requires 0 <= c < GlobalSize(n) => GlobalEntry(ke, n, r, c)))
  }

  /** The first k steps of row a add ke[a][c - 2i] when row a lands on r,
      element i covers c and column c - 2i comes among the first k, and
      nothing otherwise. */
  lemma {:induction false} RowSumLocal(ke: Matrix, i: nat, r: nat, c: nat, a: nat, k: nat)
    requires IsMatrix(ke, 4, 4) && a < 4 && k <= 4
    ensures RowSum(ke, i, r, c, a, k) ==
      if r == 2 * i + a && Covers(i, c) && c - 2 * i < k then ke[a][c - 2 * i] else 0.0
  {
    if k > 0 {
      RowSumLocal(ke, i, r, c, a, k - 1);
    }
  }

  /** The first k rows add ke at the local position of (r, c) when element
      i covers both indices and row r - 2i comes among the first k, and
      nothing otherwise. */
  lemma {:induction false} RowsSumLocal(ke: Matrix, i: nat, r: nat, c: nat, k: nat)
    requires IsMatrix(ke, 4, 4) && k <= 4
    ensures RowsSum(ke, i, r, c, k) ==
      if Covers(i, r) && Covers(i, c) && r - 2 * i < k then ke[r - 2 * i][c - 2 * i] else 0.0
  {
    if k > 0 {
      RowsSumLocal(ke, i, r, c, k - 1);
      RowSumLocal(ke, i, r, c, k - 1, 4);
    }
  }

  /** Element i adds ke[r - 2i][c - 2i] to an entry whose row and column it
      both covers, and nothing to any other entry. */
  lemma {:induction false} ContributionLocal(ke: Matrix, i: nat, r: nat, c: nat)
    requires IsMatrix(ke, 4, 4)
    ensures Contribution(ke, i, r, c) ==
      if Covers(i, r) && Covers(i, c) then ke[r - 2 * i][c - 2 * i] else 0.0
  {
    RowsSumLocal(ke, i, r, c, 4);
  }

  /** Assembly preserves symmetry: symmetric element matrices placed
      symmetrically give a symmetric global matrix, for every n. */
  lemma {:induction false} GlobalEntrySymmetric(ke: Matrix, n: nat, r: nat, c: nat)
    requires IsMatrix(ke, 4, 4) && Symmetric(ke)
    ensures GlobalEntry(ke, n, r, c) == GlobalEntry(ke, n, c, r)
  {
    if n > 0 {
      GlobalEntrySymmetric(ke, n - 1, r, c);
      ContributionLocal(ke, n - 1, r, c);
      ContributionLocal(ke, n - 1, c, r);
    }
  }

  lemma {:induction false} GlobalMatrixSymmetric(ke: Matrix, n: nat)
    requires IsMatrix(ke, 4, 4) && Symmetric(ke)
    ensures Symmetric(GlobalMatrix(ke, n))
  {
    var K := GlobalMatrix(ke, n);
    forall r, c | 0 <= r < |K| && 0 <= c < |K| ensures K[r][c] == K[c][r] {
      GlobalEntrySymmetric(ke, n, r, c);
    }
  }

  /** The global matrix is banded: nodes that are not the same or adjacent
      are never coupled. */
  lemma {:induction false} GlobalEntryBanded(ke: Matrix, n: nat, r: nat, c: nat)
    requires IsMatrix(ke, 4, 4)
    requires r / 2 > c / 2 + 1 || c / 2 > r / 2 + 1
    ensures GlobalEntry(ke, n, r, c) == 0.0
  {
    if n > 0 {
      GlobalEntryBanded(ke, n - 1, r, c);
      ContributionLocal(ke, n - 1, r, c);
    }
  }

  /** Entries outside the system of the first n elements stay zero. */
  lemma {:induction false} GlobalEntryOutside(ke: Matrix, n: nat, r: nat, c: nat)
    requires IsMatrix(ke, 4, 4)
    requires r >= GlobalSize(n) || c >= GlobalSize(n)
    ensures GlobalEntry(ke, n, r, c) == 0.0
  {
    if n > 0 {
      GlobalEntryOutside(ke, n - 1, r, c);
      ContributionLocal(ke, n - 1, r, c);
    }
  }

  /** Diagonal block of node j: it collects the right-node block of element
      j - 1 and the left-node block of element j, whichever exist. Interior
      nodes therefore receive the sum of both, which is what accumulation
      (rather than assignment) produces. */
  lemma {:induction false} NodeBlock(ke: Matrix, n: nat, j: nat, s: nat, t: nat)
    requires IsMatrix(ke, 4, 4) && j <= n && s < 2 && t < 2
    ensures GlobalEntry(ke, n, 2 * j + s, 2 * j + t) ==
      (if j >= 1 then ke[2 + s][2 + t] else 0.0) + (if j < n then ke[s][t] else 0.0)
  {
    if n > 0 {
      ContributionLocal(ke, n - 1, 2 * j + s, 2 * j + t);
      if j < n {
        NodeBlock(ke, n - 1, j, s, t);
      } else {
        GlobalEntryOutside(ke, n - 1, 2 * j + s, 2 * j + t);
      }
    }
  }

  /** Coupling block between node j and node j + 1: only element j
      contributes, so it holds element j's off-diagonal block unchanged. */
  lemma {:induction false} NodeCoupling(ke: Matrix, n: nat, j: nat, s: nat, t: nat)
    requires IsMatrix(ke, 4, 4) && j < n && s < 2 && t < 2
    ensures GlobalEntry(ke, n, 2 * j + s, 2 * (j + 1) + t) == ke[s][2 + t]
  {
    ContributionLocal(ke, n - 1, 2 * j + s, 2 * (j + 1) + t);
    if j < n - 1 {
      NodeCoupling(ke, n - 1, j, s, t);
    } else {
      GlobalEntryOutside(ke, n - 1, 2 * j + s, 2 * (j + 1) + t);
    }
  }

  /** Sum of the first k diagonal entries after n elements. */
  function DiagonalSum(ke: Matrix, n: nat, k: nat): real
    requires IsMatrix(ke, 4, 4)
  {
    if k == 0 then 0.0 else DiagonalSum(ke, n, k - 1) + GlobalEntry(ke, n, k - 1, k - 1)
  }

  /** Sum of what element i adds to the first k diagonal entries. */
  function ElementDiagonal(ke: Matrix, i: nat, k: nat): real
    requires IsMatrix(ke, 4, 4)
  {
    if k == 0 then 0.0 else ElementDiagonal(ke, i, k - 1) + Contribution(ke, i, k - 1, k - 1)
  }

  lemma {:induction false} ElementDiagonalPartial(ke: Matrix, i: nat, k: nat)
    requires IsMatrix(ke, 4, 4)
    ensures ElementDiagonal(ke, i, k) ==
      if k <= 2 * i then 0.0
      else if k < 2 * i + 4 then Trace(ke, k - 2 * i)
      else Trace(ke, 4)
  {
    if k > 0 {
      ElementDiagonalPartial(ke, i, k - 1);
      ContributionLocal(ke, i, k - 1, k - 1);
    }
  }

  lemma {:induction false} DiagonalSumSplit(ke: Matrix, n: nat, k: nat)
    requires IsMatrix(ke, 4, 4) && n > 0
    ensures DiagonalSum(ke, n, k) == DiagonalSum(ke, n - 1, k) + ElementDiagonal(ke, n - 1, k)
  {
    if k > 0 {
      DiagonalSumSplit(ke, n, k - 1);
    }
  }

  lemma {:induction false} DiagonalSumBeyond(ke: Matrix, n: nat, k: nat)
    requires IsMatrix(ke, 4, 4) && k >= GlobalSize(n)
    ensures DiagonalSum(ke, n, k) == DiagonalSum(ke, n, GlobalSize(n))
  {
    if k > GlobalSize(n) {
      DiagonalSumBeyond(ke, n, k - 1);
      GlobalEntryOutside(ke, n, k - 1, k - 1);
    }
  }

  lemma {:induction false} TraceIsDiagonalSum(ke: Matrix, n: nat, k: nat)
    requires IsMatrix(ke, 4, 4) && k <= GlobalSize(n)
    ensures Trace(GlobalMatrix(ke, n), k) == DiagonalSum(ke, n, k)
  {
    if k > 0 {
      TraceIsDiagonalSum(ke, n, k - 1);
    }
  }

  /** The diagonal of the first n elements sums to n times the trace of
      the element matrix. */
  lemma {:induction false} DiagonalSumTotal(ke: Matrix, n: nat)
    requires IsMatrix(ke, 4, 4)
    ensures DiagonalSum(ke, n, GlobalSize(n)) == (n as real) * Trace(ke, 4)
  {
    var t := Trace(ke, 4);
    if n == 0 {
      assert DiagonalSum(ke, 0, 1) == 0.0;
    } else {
      var size := GlobalSize(n);
      var prev := DiagonalSum(ke, n - 1, GlobalSize(n - 1));
      assert DiagonalSum(ke, n, size) == DiagonalSum(ke, n - 1, size) + ElementDiagonal(ke, n - 1, size) by {
        DiagonalSumSplit(ke, n, size);
      }
      assert DiagonalSum(ke, n - 1, size) == prev by {
        DiagonalSumBeyond(ke, n - 1, size);
      }
      assert ElementDiagonal(ke, n - 1, size) == t by {
        ElementDiagonalPartial(ke, n - 1, size);
      }
      DiagonalSumTotal(ke, n - 1);
      assert prev == ((n - 1) as real) * t;
      assert (n as real) * t == ((n - 1) as real) * t + t;
    }
  }

  /** Nothing is lost or counted twice: the trace of the global matrix is n
      times the trace of the element matrix. */
  lemma {:induction false} GlobalTrace(ke: Matrix, n: nat)
    requires IsMatrix(ke, 4, 4)
    ensures Trace(GlobalMatrix(ke, n), GlobalSize(n)) == (n as real) * Trace(ke, 4)
  {
    TraceIsDiagonalSum(ke, n, GlobalSize(n));
    DiagonalSumTotal(ke, n);
  }

  /** Adds element i's matrix ke into K at its degrees of freedom, the
      `for a` / `for b` loops of the assembly. */
  method AddElement(K: array2<real>, ke: Matrix, i: nat)
    requires IsMatrix(ke, 4, 4)
    requires 2 * i + 4 <= K.Length0 && 2 * i + 4 <= K.Length1
    modifies K
    ensures forall r, c :: 0 <= r < K.Length0 && 0 <= c < K.Length1 ==>
      K[r, c] == old(K[r, c]) + Contribution(ke, i, r, c)
  {
    var dof := ElementDofs(i);
    for a := 0 to 4
      invariant forall r, c :: 0 <= r < K.Length0 && 0 <= c < K.Length1 ==>
        K[r, c] == old(K[r, c]) + RowsSum(ke, i, r, c, a)
    {
      for b := 0 to 4
        invariant forall r, c :: 0 <= r < K.Length0 && 0 <= c < K.Length1 ==>
          K[r, c] == old(K[r, c]) + RowsSum(ke, i, r, c, a) + RowSum(ke, i, r, c, a, b)
      {
        K[dof[a], dof[b]] := K[dof[a], dof[b]] + ke[a][b];
      }
    }
  }

  /** The global assembly: a zero matrix of size 2(n + 1), to which every
      element's stiffness matrix is added at its degrees of freedom. */
  method AssembleGlobal(E: real, I: real, L: real, n: nat) returns (K: array2<real>)
    requires n >= 1 && L != 0.0
    ensures fresh(K) && K.Length0 == GlobalSize(n) && K.Length1 == GlobalSize(n)
    ensures forall r, c :: 0 <= r < K.Length0 && 0 <= c < K.Length1 ==>
      K[r, c] == GlobalEntry(ElementStiffness(E, I, ElementLength(L, n)), n, r, c)
  {
    var h := ElementLength(L, n);
    K := new real[GlobalSize(n), GlobalSize(n)]((_, _) => 0.0);
    for i := 0 to n
      invariant forall r, c :: 0 <= r < K.Length0 && 0 <= c < K.Length1 ==>
        K[r, c] == GlobalEntry(ElementStiffness(E, I, h), i, r, c)
    {
      var ke := ElementStiffness(E, I, h);
      AddElement(K, ke, i);
    }
  }

  /** The load vector as a value: a point load of magnitude q acting
      downward on the transverse degree of freedom of the tip node n. */
  function PointLoad(n: nat, q: real): (F: seq<real>)
    ensures |F| == GlobalSize(n) && F[2 * n] == -q
    ensures forall k :: 0 <= k < |F| && k != 2 * n ==> F[k] == 0.0
  {
    Zeros(GlobalSize(n))[2 * n := -q]
  }

  /** `F = np.zeros(2*(N+1)); F[2*N] = -q`. */
  method LoadVector(n: nat, q: real) returns (F: array<real>)
    ensures fresh(F) && F[..] == PointLoad(n, q)
  {
    F := new real[GlobalSize(n)](_ => 0.0);
    F[2 * n] := -q;
  }
}
