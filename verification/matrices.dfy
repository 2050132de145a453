/** Dense real matrices and vectors as nested sequences, with the few
    operations the finite-element pipeline needs. */
module Matrices {

  type Matrix = seq<seq<real>>

  /** `m` has `rows` rows of `cols` entries each. */
  predicate IsMatrix(m: Matrix, rows: nat, cols: nat) {
    |m| == rows && forall i :: 0 <= i < rows ==> |m[i]| == cols
  }

  predicate IsSquare(m: Matrix) {
    IsMatrix(m, |m|, |m|)
  }

  predicate Symmetric(m: Matrix)
    requires IsSquare(m)
  {
    forall i, j :: 0 <= i < |m| && 0 <= j < |m| ==> m[i][j] == m[j][i]
  }

  /** The n-long zero vector (`np.zeros(n)`). */
  function Zeros(n: nat): (v: seq<real>)
    ensures |v| == n && forall k :: 0 <= k < n ==> v[k] == 0.0
  {
    seq(n, _ => 0.0)
  }

  /** Inner product, summed from the first entry on. */
  function Dot(a: seq<real>, b: seq<real>): real
    requires |a| == |b|
  {
    if |a| == 0 then 0.0 else a[0] * b[0] + Dot(a[1..], b[1..])
  }

  /** Matrix-vector product: entry i is the inner product of row i with x. */
  function MatVec(m: Matrix, x: seq<real>): (y: seq<real>)
    requires forall i :: 0 <= i < |m| ==> |m[i]| == |x|
    ensures |y| == |m|
  {
    seq(|m|, i requires 0 <= i < |m| => Dot(m[i], x))
  }

  /** Sum of the diagonal entries of the leading k-by-k block. */
  function Trace(m: Matrix, k: nat): real
    requires IsSquare(m) && k <= |m|
  {
    if k == 0 then 0.0 else Trace(m, k - 1) + m[k - 1][k - 1]
  }

  /** Inner product of two 4-vectors, written out. */
  lemma {:induction false} Dot4(a: seq<real>, b: seq<real>)
    requires |a| == 4 && |b| == 4
    ensures Dot(a, b) == a[0] * b[0] + a[1] * b[1] + a[2] * b[2] + a[3] * b[3]
  {
    assert a[1..][1..] == a[2..] && b[1..][1..] == b[2..];
    assert a[2..][1..] == a[3..] && b[2..][1..] == b[3..];
    assert a[3..][1..] == [] && b[3..][1..] == [];
    calc {
      Dot(a, b);
      a[0] * b[0] + Dot(a[1..], b[1..]);
      a[0] * b[0] + a[1] * b[1] + Dot(a[2..], b[2..]);
      a[0] * b[0] + a[1] * b[1] + a[2] * b[2] + Dot(a[3..], b[3..]);
      a[0] * b[0] + a[1] * b[1] + a[2] * b[2] + a[3] * b[3] + Dot([], []);
    }
  }

  /** Scaling one side of an inner product scales the result. */
  lemma {:induction false} DotScale(s: real, a: seq<real>, b: seq<real>, x: seq<real>)
    requires |a| == |b| == |x|
    requires forall j :: 0 <= j < |a| ==> a[j] == s * b[j]
    ensures Dot(a, x) == s * Dot(b, x)
  {
    if |a| > 0 {
      DotScale(s, a[1..], b[1..], x[1..]);
    }
  }

  /** Filling a zero entry i of s with v adds a[i] * v to the inner
      product. */
  lemma {:induction false} DotFill(a: seq<real>, s: seq<real>, i: nat, v: real)
    requires |a| == |s| && i < |s| && s[i] == 0.0
    ensures Dot(a, s[i := v]) == Dot(a, s) + a[i] * v
  {
    if i > 0 {
      assert s[i := v][1..] == s[1..][i - 1 := v];
      DotFill(a[1..], s[1..], i - 1, v);
    } else {
      assert s[i := v][1..] == s[1..];
    }
  }

  lemma {:induction false} DotSnoc(a: seq<real>, b: seq<real>, x: real, y: real)
    requires |a| == |b|
    ensures Dot(a + [x], b + [y]) == Dot(a, b) + x * y
  {
    if |a| == 0 {
      assert (a + [x])[1..] == [] && (b + [y])[1..] == [];
    } else {
      assert (a + [x])[1..] == a[1..] + [x] && (b + [y])[1..] == b[1..] + [y];
      DotSnoc(a[1..], b[1..], x, y);
    }
  }

  lemma {:induction false} DotZeros(a: seq<real>)
    ensures Dot(a, Zeros(|a|)) == 0.0
  {
    if |a| > 0 {
      assert Zeros(|a|)[1..] == Zeros(|a| - 1);
      DotZeros(a[1..]);
    }
  }

  /** The inner product is additive in its first argument. */
  lemma {:induction false} DotAddLeft(a: seq<real>, b: seq<real>, s: seq<real>, x: seq<real>)
    requires |a| == |b| == |s| == |x|
    requires forall j :: 0 <= j < |s| ==> s[j] == a[j] + b[j]
    ensures Dot(s, x) == Dot(a, x) + Dot(b, x)
  {
    if |s| > 0 {
      DotAddLeft(a[1..], b[1..], s[1..], x[1..]);
    }
  }

  /** A vector of zeros has inner product zero with anything. */
  lemma {:induction false} DotZeroLeft(a: seq<real>, x: seq<real>)
    requires |a| == |x|
    requires forall j :: 0 <= j < |a| ==> a[j] == 0.0
    ensures Dot(a, x) == 0.0
  {
    if |a| > 0 {
      DotZeroLeft(a[1..], x[1..]);
    }
  }

  /** The inner product splits at any index into a head part and a tail
      part. */
  lemma {:induction false} DotSplit(a: seq<real>, x: seq<real>, k: nat)
    requires |a| == |x| && k <= |a|
    ensures Dot(a, x) == Dot(a[..k], x[..k]) + Dot(a[k..], x[k..])
  {
    if k > 0 {
      DotSplit(a[1..], x[1..], k - 1);
      assert a[1..][..k - 1] == a[..k][1..] && x[1..][..k - 1] == x[..k][1..];
      assert a[1..][k - 1..] == a[k..] && x[1..][k - 1..] == x[k..];
    } else {
      assert a[..0] == [] && x[..0] == [];
      assert a[0..] == a && x[0..] == x;
    }
  }

  /** A vector that is zero outside the window [lo, lo + w) has the inner
      product of its window. */
  lemma {:induction false} DotWindow(a: seq<real>, x: seq<real>, lo: nat, w: nat)
    requires |a| == |x| && lo + w <= |a|
    requires forall j :: 0 <= j < |a| && (j < lo || j >= lo + w) ==> a[j] == 0.0
    ensures Dot(a, x) == Dot(a[lo..lo + w], x[lo..lo + w])
  {
    DotSplit(a, x, lo);
    DotZeroLeft(a[..lo], x[..lo]);
    var ta, tx := a[lo..], x[lo..];
    DotSplit(ta, tx, w);
    DotZeroLeft(ta[w..], tx[w..]);
    assert ta[..w] == a[lo..lo + w] && tx[..w] == x[lo..lo + w];
  }
}
