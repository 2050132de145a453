/** From the full displacement vector to the deflection profile, and the
    closed-form tip deflection it is compared with. */
module Results {
  import opened Assembly

  /** `np.linspace(start, stop, num)`: num evenly spaced points from start to
      stop inclusive (just [start] when num is 1). */
  function Linspace(start: real, stop: real, num: nat): (xs: seq<real>)
    ensures |xs| == num
    ensures num >= 1 ==> xs[0] == start
    ensures num >= 2 ==> xs[num - 1] == stop
    ensures num >= 2 ==> forall k :: 0 <= k < num - 1 ==>
      xs[k + 1] - xs[k] == (stop - start) / ((num - 1) as real)
  {
    if num <= 1 then seq(num, _ => start)
    else
      var step := (stop - start) / ((num - 1) as real);
      seq(num, k requires 0 <= k < num =>
        if k == num - 1 then stop else (k as real) * step + start)
  }

  /** `v[::2]`: the first entry, then every second one after it. */
  function EveryOther(v: seq<real>): (r: seq<real>)
    ensures |r| == (|v| + 1) / 2
  {
    if |v| <= 1 then v else [v[0]] + EveryOther(v[2..])
  }

  /** Entry i of the strided slice is entry 2i of the vector. */
  lemma {:induction false} EveryOtherAt(v: seq<real>, i: nat)
    requires i < (|v| + 1) / 2
    ensures EveryOther(v)[i] == v[2 * i]
  {
    if i > 0 {
      EveryOtherAt(v[2..], i - 1);
    }
  }

  /** `displacement_to_bending(displacements, N)`: node positions along a
      beam of length L and the transverse displacements of the nodes. */
  function DisplacementToBending(displacements: seq<real>, n: nat, L: real): (xy: (seq<real>, seq<real>))
    ensures |xy.0| == n + 1 && |xy.1| == (|displacements| + 1) / 2
  {
    (Linspace(0.0, L, n + 1), EveryOther(displacements))
  }

  /** The magnitude of a deflection. */
  function Abs(x: real): (a: real)
    ensures a >= 0.0 && (a == x || a == -x)
  {
    if x < 0.0 then -x else x
  }

  lemma {:induction false} MulDivAssociate(x: real, y: real, d: real)
    requires d != 0.0
    ensures x * (y / d) == (x * y) / d
  {
  }

  lemma {:induction false} DivCancelsFactor(y: real, d: real)
    requires d != 0.0
    ensures (d * y) / d == y
  {
  }

  /** Point k of a linspace over num >= 2 points is start plus k times the
      spacing. */
  lemma {:induction false} LinspaceAt(start: real, stop: real, num: nat, k: nat)
    requires num >= 2 && k < num
    ensures Linspace(start, stop, num)[k] == start + (k as real) * (stop - start) / ((num - 1) as real)
  {
    var d := (num - 1) as real;
    var xs := Linspace(start, stop, num);
    if k == num - 1 {
      assert xs[k] == stop;
      assert (k as real) == d;
      DivCancelsFactor(stop - start, d);
    } else {
      assert xs[k] == (k as real) * ((stop - start) / d) + start;
      MulDivAssociate(k as real, stop - start, d);
    }
  }

  /** For a full displacement vector of an n-element mesh the profile holds
      one (x, y) pair per node: node i sits at i * L / n and its deflection
      is the transverse degree of freedom 2i. */
  lemma {:induction false} BendingProfile(displacements: seq<real>, n: nat, L: real)
    requires n >= 1 && |displacements| == GlobalSize(n)
    ensures var (x, y) := DisplacementToBending(displacements, n, L);
      && |x| == n + 1 && |y| == n + 1
      && (forall i :: 0 <= i <= n ==> x[i] == (i as real) * L / (n as real))
      && (forall i :: 0 <= i <= n ==> y[i] == displacements[2 * i])
  {
    var (x, y) := DisplacementToBending(displacements, n, L);
    forall i | 0 <= i <= n ensures x[i] == (i as real) * L / (n as real) {
      LinspaceAt(0.0, L, n + 1, i);
    }
    forall i | 0 <= i <= n ensures y[i] == displacements[2 * i] {
      EveryOtherAt(displacements, i);
    }
  }

  /** `theoretical_max_displacement(q, L, E, I)`: the tip deflection
      q L^3 / (3 E I) of a cantilever under an end load q. Python raises
      when E * I is zero. */
  function TheoreticalMaxDisplacement(q: real, L: real, E: real, I: real): (delta: real)
    requires E * I != 0.0
    ensures delta * (3.0 * (E * I)) == q * (L * L * L)
  {
    (q * (L * L * L)) / (3.0 * E * I)
  }
}
