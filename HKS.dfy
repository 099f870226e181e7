/** `HKS`: the heat kernel signature of a triangle mesh.

    `build` assembles the cotangent stiffness matrix C and the diagonal mass
    matrix M, hands the operator M·C·M to a shift-invert eigensolver and
    keeps the converged eigenvalues and the eigenvectors scaled by M.  The
    source applies `SqrtRcpr` to a temporary copy of M and drops the copy
    (`unaryExpr` returns a new expression and does not work in place), so
    the operator is M·C·M as written, not the M^-1/2·C·M^-1/2 that the call
    was evidently meant to produce; the model follows the code.

    `compute` samples tscales times between tmin and tmax on a logarithmic
    scale, evaluates at every vertex and time the sum over the eigenpairs of
    exp(-λ t)·φ², and divides every time row by its sum over the vertices.

    The eigensolver is a parameter (its assertions become requirements on
    it); exp, log and sqrt are parameters with the properties the proofs
    need stated as predicates. */
module HeatKernelSignature {
  import opened HalfEdgeMesh
  import opened TriMeshGeometry
  import opened CotangentLaplacian

  datatype Option<T> = None | Some(value: T)

  // ---------------------------------------------------------------------
  // SqrtRcpr

  /** sqrt is a square root on the positive reals. */
  ghost predicate IsSqrt(sqrt: real -> real) {
    forall x :: x > 0.0 ==> sqrt(x) > 0.0 && sqrt(x) * sqrt(x) == x
  }

  /** `_impl::SqrtRcpr`: zero stays zero, any other value becomes the
      reciprocal of its square root. */
  function SqrtRcpr(sqrt: real -> real, v: real): (r: real)
    requires v != 0.0 ==> sqrt(v) != 0.0
    ensures v == 0.0 ==> r == 0.0
    ensures v != 0.0 ==> r * sqrt(v) == 1.0
  {
    if v == 0.0 then 0.0 else 1.0 / sqrt(v)
  }

  /** On a positive value SqrtRcpr is the inverse square root: positive,
      and its square times the value is one. */
  lemma SqrtRcprIsInverseSqrt(sqrt: real -> real, v: real)
    requires IsSqrt(sqrt) && v > 0.0
    ensures SqrtRcpr(sqrt, v) > 0.0
    ensures SqrtRcpr(sqrt, v) * SqrtRcpr(sqrt, v) * v == 1.0
  {
    var s := sqrt(v);
    var r := SqrtRcpr(sqrt, v);
    assert s > 0.0 && s * s == v;
    assert r * s == 1.0;
    calc {
      r * r * v;
      r * r * (s * s);
      (r * s) * (r * s);
      1.0;
    }
  }

  // ---------------------------------------------------------------------
  // The operator

  type Matrix = map<Key, real>

  /** Every position of a lies inside the n x n square. */
  ghost predicate InSquare(a: Matrix, n: nat) {
    forall key :: key in a ==> key.0 < n && key.1 < n
  }

  /** The mirrored position of every position holds the same value. */
  ghost predicate IsSymmetric(a: Matrix) {
    forall r, c :: (r, c) in a ==> (c, r) in a && a[(c, r)] == a[(r, c)]
  }

  /** The diagonal of the matrix `setFromTriplets` builds from the mass
      triplets, triplet v sitting at (v, v). */
  function Diagonal(ts: seq<Triplet>): (d: seq<real>)
    ensures |d| == |ts|
  {
    seq(|ts|, v requires 0 <= v < |ts| => ts[v].value)
  }

  /** D·A·D for the diagonal matrix D with diagonal d.  A sparse product
      with a diagonal whose every position is stored keeps the positions
      of A. */
  function Sandwich(d: seq<real>, a: Matrix): (r: Matrix)
    requires InSquare(a, |d|)
    ensures r.Keys == a.Keys
  {
    map key | key in a :: d[key.0] * a[key] * d[key.1]
  }

  /** D·A·D is symmetric when A is. */
  lemma SandwichSymmetric(d: seq<real>, a: Matrix)
    requires InSquare(a, |d|) && IsSymmetric(a)
    ensures IsSymmetric(Sandwich(d, a))
  {
    var s := Sandwich(d, a);
    forall r, c | (r, c) in s ensures (c, r) in s && s[(c, r)] == s[(r, c)] {
      assert (c, r) in a && a[(c, r)] == a[(r, c)];
      assert s[(c, r)] == d[c] * a[(r, c)] * d[r];
      assert d[c] * a[(r, c)] * d[r] == d[r] * a[(r, c)] * d[c];
    }
  }

  /** A zero on the diagonal of D empties the row and the column of D·A·D. */
  lemma SandwichZeroRow(d: seq<real>, a: Matrix, i: nat)
    requires InSquare(a, |d|) && i < |d| && d[i] == 0.0
    ensures forall c :: (i, c) in a ==> Sandwich(d, a)[(i, c)] == 0.0
    ensures forall c :: (c, i) in a ==> Sandwich(d, a)[(c, i)] == 0.0
  {
  }

  /** The operator `build` hands to the eigensolver, M·C·M, lies inside the
      vertex square and is symmetric, whatever the areas on M's diagonal. */
  lemma OperatorSymmetric(m: Mesh, g: Geometry, cot: Matrix, mass: seq<real>)
    requires WellFormed(m) && Embeds(m, g) && Assembled(m, EdgeWeights(m, g), cot, m.nv)
    requires |mass| == m.nv
    ensures InSquare(cot, |mass|)
    ensures IsSymmetric(Sandwich(mass, cot))
  {
    var w := EdgeWeights(m, g);
    KeysInRange(m, w, cot);
    EdgeWeightsSymmetric(m, g);
    Symmetric(m, w, cot);
    SandwichSymmetric(mass, cot);
  }

  /** The diagonal SqrtRcpr makes of the areas: the M^-1/2 that line 45
      was evidently meant to produce. */
  function Normalizer(sqrt: real -> real, mass: seq<real>): (s: seq<real>)
    requires forall v :: 0 <= v < |mass| && mass[v] != 0.0 ==> sqrt(mass[v]) != 0.0
    ensures |s| == |mass|
  {
    seq(|mass|, v requires 0 <= v < |mass| => SqrtRcpr(sqrt, mass[v]))
  }

  /** The operator S·C·S with S = SqrtRcpr(M), the one the `SqrtRcpr` call
      at line 45 was evidently meant to produce, is symmetric too. */
  lemma NormalizedOperatorSymmetric(sqrt: real -> real, cot: Matrix, mass: seq<real>)
    requires forall v :: 0 <= v < |mass| && mass[v] != 0.0 ==> sqrt(mass[v]) != 0.0
    requires InSquare(cot, |mass|) && IsSymmetric(cot)
    ensures IsSymmetric(Sandwich(Normalizer(sqrt, mass), cot))
  {
    SandwichSymmetric(Normalizer(sqrt, mass), cot);
  }

  /** In S·C·S a vertex of zero area contributes nothing: SqrtRcpr maps its
      area to zero, so its row and its column vanish. */
  lemma NormalizedOperatorZeroRow(sqrt: real -> real, cot: Matrix, mass: seq<real>, i: nat)
    requires forall v :: 0 <= v < |mass| && mass[v] != 0.0 ==> sqrt(mass[v]) != 0.0
    requires InSquare(cot, |mass|) && i < |mass| && mass[i] == 0.0
    ensures forall c :: (i, c) in cot ==> Sandwich(Normalizer(sqrt, mass), cot)[(i, c)] == 0.0
    ensures forall c :: (c, i) in cot ==> Sandwich(Normalizer(sqrt, mass), cot)[(c, i)] == 0.0
  {
    SandwichZeroRow(Normalizer(sqrt, mass), cot, i);
  }

  // ---------------------------------------------------------------------
  // The eigensolver

  /** The statuses the eigensolver reports. */
  datatype Status = Successful | NotComputed | NotConverging | NumericalIssue

  /** What the eigensolver hands back: its status, the number of converged
      eigenpairs, their eigenvalues, and the eigenvectors with one row per
      vertex and one column per eigenpair. */
  datatype Decomposition = Decomposition(status: Status, converged: nat, values: seq<real>, vectors: seq<seq<real>>)

  /** The eigensolver, given the operator, the number of eigenpairs wanted
      and the subspace size. */
  type Solver = (Matrix, nat, nat) -> Decomposition

  /** What `build` asserts of a successful decomposition of an operator on
      nv vertices: one eigenvalue per converged pair, a positive second
      eigenvalue below the third, and eigenvectors of nv rows with one
      column per converged pair. */
  ghost predicate Asserted(e: Decomposition, nv: nat) {
    e.status == Successful ==>
      && |e.values| == e.converged
      && 3 <= e.converged
      && 0.0 < e.values[1] < e.values[2]
      && |e.vectors| == nv
      && forall v :: 0 <= v < nv ==> |e.vectors[v]| == e.converged
  }

  /** The number of eigenpairs `build` asks for: the request, or the vertex
      count when the request exceeds it. */
  function Clamp(requested: nat, nv: nat): (k: nat)
    ensures k <= requested && k <= nv
    ensures k == requested || k == nv
  {
    if requested > nv then nv else requested
  }

  /** The subspace size min(2k + 1, nv). */
  function SubspaceSize(k: nat, nv: nat): (s: nat)
    ensures s <= 2 * k + 1 && s <= nv
    ensures s == 2 * k + 1 || s == nv
  {
    if nv < 2 * k + 1 then nv else 2 * k + 1
  }

  /** After the clamp the subspace is larger than the number of eigenpairs
      asked for exactly when the request was below the vertex count; a
      request of nv or more leaves a subspace of exactly k = nv. */
  lemma SubspaceExceedsRequest(requested: nat, nv: nat)
    ensures var k := Clamp(requested, nv);
      (SubspaceSize(k, nv) > k <==> requested < nv)
      && (requested >= nv ==> SubspaceSize(k, nv) == k)
  {
  }

  /** The eigenfunctions `build` keeps: M times the eigenvectors, that is
      row v scaled by the area of vertex v. */
  function ScaleRows(d: seq<real>, vs: seq<seq<real>>): (r: seq<seq<real>>)
    requires |d| == |vs|
    ensures |r| == |vs| && forall v :: 0 <= v < |vs| ==> |r[v]| == |vs[v]|
  {
    seq(|vs|, v requires 0 <= v < |vs| => seq(|vs[v]|, j requires 0 <= j < |vs[v]| => d[v] * vs[v][j]))
  }

  /** The warnings `build` issues. */
  datatype Warning =
    | TooManyRequested(requested: nat, vertices: nat)
    | PartiallyConverged(requested: nat, converged: nat)

  /** The `runtime_error` of a failed decomposition. */
  datatype BuildError = SolverFailed

  // ---------------------------------------------------------------------
  // The signature

  /** exp is positive and increasing. */
  ghost predicate ExpIsExp(exp: real -> real) {
    && (forall x :: exp(x) > 0.0)
    && (forall x, y :: x < y ==> exp(x) < exp(y))
  }

  /** log is increasing on the positive reals and exp undoes it. */
  ghost predicate LogIsLog(exp: real -> real, log: real -> real) {
    && (forall x :: x > 0.0 ==> exp(log(x)) == x)
    && (forall x, y :: 0.0 < x < y ==> log(x) < log(y))
  }

  /** The time range `compute` samples: the one given when both ends are
      positive, otherwise c / (last eigenvalue) to c / (second eigenvalue)
      with c = 4 log 10. */
  function TimeRange(log: real -> real, ev: seq<real>, tmin: real, tmax: real): (real, real)
    requires !(tmin > 0.0 && tmax > 0.0) ==> |ev| >= 2 && ev[1] != 0.0 && ev[|ev| - 1] != 0.0
  {
    if tmin > 0.0 && tmax > 0.0 then (tmin, tmax)
    else
      var c := 4.0 * log(10.0);
      (c / ev[|ev| - 1], c / ev[1])
  }

  /** The step between two logarithms of consecutive samples: the whole
      logarithmic range over tscales. */
  function Step(log: real -> real, lo: real, hi: real, tscales: nat): real {
    if tscales == 0 then 0.0 else (log(hi) - log(lo)) / tscales as real
  }

  /** Time sample i. */
  function Sample(exp: real -> real, log: real -> real, lo: real, hi: real, tscales: nat, i: nat): real {
    exp(log(lo) + Step(log, lo, hi, tscales) * i as real)
  }

  lemma SampleAt(exp: real -> real, log: real -> real, lo: real, hi: real, tscales: nat, i: nat, step: real)
    requires step == Step(log, lo, hi, tscales)
    ensures exp(log(lo) + step * i as real) == Sample(exp, log, lo, hi, tscales, i)
  {
    var x := log(lo) + step * i as real;
    assert x == log(lo) + Step(log, lo, hi, tscales) * i as real;
  }

  /** The term of eigenpair j at time t of a vertex whose eigenfunction
      values are row. */
  function Term(exp: real -> real, ev: seq<real>, row: seq<real>, t: real, j: nat): real
    requires j < |ev| && j < |row|
  {
    exp(-ev[j] * t) * row[j] * row[j]
  }

  /** The sum of the terms of the first n eigenpairs, in order. */
  function HeatSum(exp: real -> real, ev: seq<real>, row: seq<real>, t: real, n: nat): real
    requires n <= |ev| && n <= |row|
  {
    if n == 0 then 0.0 else HeatSum(exp, ev, row, t, n - 1) + Term(exp, ev, row, t, n - 1)
  }

  /** The time row t before normalisation: one value per vertex. */
  function HeatRow(exp: real -> real, ev: seq<real>, phi: seq<seq<real>>, t: real): (r: seq<real>)
    requires forall v :: 0 <= v < |phi| ==> |phi[v]| >= |ev|
    ensures |r| == |phi|
  {
    seq(|phi|, v requires 0 <= v < |phi| => HeatSum(exp, ev, phi[v], t, |ev|))
  }

  /** The sum of a row, left to right. */
  function Total(xs: seq<real>): real {
    if xs == [] then 0.0 else Total(xs[..|xs| - 1]) + xs[|xs| - 1]
  }

  /** A row divided by its sum; a row whose sum is zero is left as it is. */
  function Normalize(xs: seq<real>): (r: seq<real>)
    ensures |r| == |xs|
  {
    var s := Total(xs);
    seq(|xs|, v requires 0 <= v < |xs| => if s == 0.0 then xs[v] else xs[v] / s)
  }

  /** The outcome of `compute`: the `invalid_argument` of an empty range,
      or the signature table, one row per time and one column per vertex. */
  datatype Signature = InvalidArgument | Table(hks: array2<real>)

  class HKS {
    var mesh: Option<Mesh>
    var eigenvalues: seq<real>
    var eigenfunctions: seq<seq<real>>

    /** A signature with no mesh and no eigen data yet. */
    constructor ()
      ensures mesh == None && eigenvalues == [] && eigenfunctions == []
    {
      mesh := None;
      eigenvalues := [];
      eigenfunctions := [];
    }

    /** There is a mesh, and one row of eigenfunction values per vertex
        with a value for every eigenvalue. */
    ghost predicate Valid()
      reads this
    {
      && mesh.Some?
      && |eigenfunctions| == mesh.value.nv
      && forall v :: 0 <= v < |eigenfunctions| ==> |eigenfunctions[v]| >= |eigenvalues|
    }

    /** `build` from a mesh: clamp k with a warning, decompose M·C·M with a
        subspace of min(2k + 1, nv), fail on any status but success, warn
        when fewer than k pairs converged, and keep the eigenvalues and
        M times the eigenvectors.  A failure leaves the fields as they
        were.  cot and mass are the matrices the call assembled. */
    method Build(m: Mesh, g: Geometry, weighting: VertexArea, requested: nat, solve: Solver)
      returns (err: Option<BuildError>, warnings: seq<Warning>, ghost cot: Matrix, ghost mass: seq<real>)
      requires WellFormed(m) && Embeds(m, g)
      requires forall a: Matrix, k: nat, s: nat :: Asserted(solve(a, k, s), m.nv)
      modifies this
      ensures Assembled(m, EdgeWeights(m, g), cot, m.nv) && InSquare(cot, m.nv)
      ensures |mass| == m.nv && forall v :: 0 <= v < m.nv ==> mass[v] == VertexAreaOf(m, g, weighting, v)
      ensures
        var k := Clamp(requested, m.nv);
        var e := solve(Sandwich(mass, cot), k, SubspaceSize(k, m.nv));
        var clamped := if requested > m.nv then [TooManyRequested(requested, m.nv)] else [];
        Asserted(e, m.nv) &&
        if e.status != Successful then
          && err == Some(SolverFailed) && warnings == clamped
          && mesh == old(mesh) && eigenvalues == old(eigenvalues) && eigenfunctions == old(eigenfunctions)
        else
          && err == None
          && warnings == clamped + (if e.converged < k then [PartiallyConverged(k, e.converged)] else [])
          && mesh == Some(m) && eigenvalues == e.values && eigenfunctions == ScaleRows(mass, e.vectors)
          && Valid()
    {
      var k := requested;
      warnings := [];
      if k > m.nv {
        warnings := warnings + [TooManyRequested(k, m.nv)];
        k := m.nv;
      }
      var c;
      ghost var evaluated;
      c, evaluated := CotangentMatrix(m, g);
      var triplets := MassMatrix(m, g, weighting);
      var d := Diagonal(triplets);
      // SqrtRcpr is applied to a copy of the mass matrix that is dropped.
      KeysInRange(m, EdgeWeights(m, g), c);
      var laplacian := Sandwich(d, c);
      var convergence := SubspaceSize(k, m.nv);
      var e := solve(laplacian, k, convergence);
      cot, mass := c, d;
      assert Asserted(e, m.nv);
      if e.status != Successful {
        err := Some(SolverFailed);
        return;
      }
      if e.converged < k {
        warnings := warnings + [PartiallyConverged(k, e.converged)];
      }
      mesh := Some(m);
      eigenvalues := e.values;
      eigenfunctions := ScaleRows(d, e.vectors);
      err := None;
    }

    /** `build` from eigen data computed elsewhere: the fields take the
        given values as they are. */
    method BuildFrom(m: Mesh, values: seq<real>, functions: seq<seq<real>>)
      modifies this
      ensures mesh == Some(m) && eigenvalues == values && eigenfunctions == functions
    {
      mesh := Some(m);
      eigenvalues := values;
      eigenfunctions := functions;
    }

    /** `compute`: reject a given range whose ends are both positive but
        out of order; otherwise fill the tscales x nv table, cell (i, v)
        being the heat sum of vertex v at sample i of the time range, and
        divide every row by its sum. */
    method Compute(tscales: nat, tmin: real, tmax: real, exp: real -> real, log: real -> real) returns (res: Signature)
      requires Valid()
      requires !(tmin > 0.0 && tmax > 0.0) ==>
        |eigenvalues| >= 2 && eigenvalues[1] != 0.0 && eigenvalues[|eigenvalues| - 1] != 0.0
      ensures res.InvalidArgument? <==> tmin > 0.0 && tmax > 0.0 && tmin >= tmax
      ensures res.Table? ==>
        && fresh(res.hks) && res.hks.Length0 == tscales && res.hks.Length1 == mesh.value.nv
        && var range := TimeRange(log, eigenvalues, tmin, tmax);
           forall i, v :: 0 <= i < tscales && 0 <= v < mesh.value.nv ==>
             res.hks[i, v] == Normalize(HeatRow(exp, eigenvalues, eigenfunctions,
                                                Sample(exp, log, range.0, range.1, tscales, i)))[v]
    {
      var lo, hi := tmin, tmax;
      if tmin > 0.0 && tmax > 0.0 {
        if tmin >= tmax {
          return InvalidArgument;
        }
      } else {
        var c := 4.0 * log(10.0);
        lo := c / eigenvalues[|eigenvalues| - 1];
        hi := c / eigenvalues[1];
      }
      var logMin := log(lo);
      var logMax := log(hi);
      var step := if tscales == 0 then 0.0 else (logMax - logMin) / tscales as real;
      var nv := mesh.value.nv;
      var ev, phi := eigenvalues, eigenfunctions;
      ghost var rows := seq(tscales, i requires 0 <= i < tscales =>
        HeatRow(exp, ev, phi, Sample(exp, log, lo, hi, tscales, i)));
      var hks := new real[tscales, nv];
      Fill(hks, exp, log, lo, hi, step, rows);
      NormaliseRows(hks, rows);
      ghost var range := TimeRange(log, ev, tmin, tmax);
      assert range == (lo, hi);
      forall i, v | 0 <= i < tscales && 0 <= v < nv
        ensures hks[i, v] == Normalize(HeatRow(exp, ev, phi, Sample(exp, log, range.0, range.1, tscales, i)))[v]
      {
        assert rows[i] == HeatRow(exp, ev, phi, Sample(exp, log, lo, hi, tscales, i));
      }
      res := Table(hks);
    }

    /** The triple loop: cell (i, v) receives the heat sum of vertex v at
        time sample i, accumulated over the eigenpairs in order. */
    method Fill(hks: array2<real>, exp: real -> real, log: real -> real, lo: real, hi: real, step: real,
                ghost rows: seq<seq<real>>)
      requires Valid() && hks.Length1 == mesh.value.nv && step == Step(log, lo, hi, hks.Length0)
      requires |rows| == hks.Length0 && forall i :: 0 <= i < |rows| ==> |rows[i]| == hks.Length1
      requires forall i :: 0 <= i < |rows| ==>
        rows[i] == HeatRow(exp, eigenvalues, eigenfunctions, Sample(exp, log, lo, hi, hks.Length0, i))
      modifies hks
      ensures forall i, v :: 0 <= i < hks.Length0 && 0 <= v < hks.Length1 ==> hks[i, v] == rows[i][v]
    {
      for v := 0 to hks.Length1
        invariant forall i', v' :: 0 <= i' < hks.Length0 && 0 <= v' < v ==> hks[i', v'] == rows[i'][v']
      {
        for i := 0 to hks.Length0
          invariant forall i', v' :: 0 <= i' < hks.Length0 && 0 <= v' < v ==> hks[i', v'] == rows[i'][v']
          invariant forall i' :: 0 <= i' < i ==> hks[i', v] == rows[i'][v]
        {
          SampleAt(exp, log, lo, hi, hks.Length0, i, step);
          var t := exp(log(lo) + step * i as real);
          var sum := HeatAt(exp, eigenvalues, eigenfunctions[v], t);
          assert sum == rows[i][v];
          hks[i, v] := sum;
        }
      }
    }
  }

  /** The innermost loop: the heat sum of one vertex at time t over the
      eigenpairs, in order. */
  method HeatAt(exp: real -> real, ev: seq<real>, row: seq<real>, t: real) returns (sum: real)
    requires |row| >= |ev|
    ensures sum == HeatSum(exp, ev, row, t, |ev|)
  {
    sum := 0.0;
    for j := 0 to |ev|
      invariant sum == HeatSum(exp, ev, row, t, j)
    {
      var e := exp(-ev[j] * t);
      var phi := row[j];
      assert Term(exp, ev, row, t, j) == e * phi * phi;
      sum := sum + e * phi * phi;
    }
  }

  /** Line 129: the row sums are taken first, then every cell is divided by
      the sum of its row. */
  method NormaliseRows(hks: array2<real>, ghost rows: seq<seq<real>>)
    requires |rows| == hks.Length0 && forall i :: 0 <= i < |rows| ==> |rows[i]| == hks.Length1
    requires forall i, v :: 0 <= i < hks.Length0 && 0 <= v < hks.Length1 ==> hks[i, v] == rows[i][v]
    modifies hks
    ensures forall i, v :: 0 <= i < hks.Length0 && 0 <= v < hks.Length1 ==> hks[i, v] == Normalize(rows[i])[v]
  {
    var sums := RowSums(hks, rows);
    for i := 0 to hks.Length0
      invariant forall i', v :: 0 <= i' < hks.Length0 && 0 <= v < hks.Length1 ==>
        hks[i', v] == if i' < i then Normalize(rows[i'])[v] else rows[i'][v]
    {
      for v := 0 to hks.Length1
        invariant forall i', v' :: 0 <= i' < hks.Length0 && 0 <= v' < hks.Length1 ==>
          hks[i', v'] == if i' < i || (i' == i && v' < v) then Normalize(rows[i'])[v'] else rows[i'][v']
      {
        if sums[i] != 0.0 {
          hks[i, v] := hks[i, v] / sums[i];
        }
      }
    }
  }

  /** The sum of every row of the table. */
  method RowSums(hks: array2<real>, ghost rows: seq<seq<real>>) returns (sums: seq<real>)
    requires |rows| == hks.Length0 && forall i :: 0 <= i < |rows| ==> |rows[i]| == hks.Length1
    requires forall i, v :: 0 <= i < hks.Length0 && 0 <= v < hks.Length1 ==> hks[i, v] == rows[i][v]
    ensures |sums| == hks.Length0 && forall i :: 0 <= i < |sums| ==> sums[i] == Total(rows[i])
  {
    sums := [];
    for i := 0 to hks.Length0
      invariant |sums| == i && forall i' :: 0 <= i' < i ==> sums[i'] == Total(rows[i'])
    {
      var s := 0.0;
      for v := 0 to hks.Length1
        invariant s == Total(rows[i][..v])
      {
        TotalStep(rows[i], v);
        s := s + hks[i, v];
      }
      assert rows[i][..hks.Length1] == rows[i];
      sums := sums + [s];
    }
  }

  lemma TotalStep(xs: seq<real>, v: nat)
    requires v < |xs|
    ensures Total(xs[..v + 1]) == Total(xs[..v]) + xs[v]
  {
    assert xs[..v + 1][..v] == xs[..v];
  }

  // ---------------------------------------------------------------------
  // Properties of the signature

  /** The sum of a row divided by s is the row's sum divided by s. */
  lemma {:induction false} TotalDivided(xs: seq<real>, s: real)
    requires s != 0.0
    ensures Total(seq(|xs|, v requires 0 <= v < |xs| => xs[v] / s)) == Total(xs) / s
    decreases |xs|
  {
    var ys := seq(|xs|, v requires 0 <= v < |xs| => xs[v] / s);
    if xs != [] {
      var n := |xs| - 1;
      var front := xs[..n];
      TotalDivided(front, s);
      assert ys[..n] == seq(|front|, v requires 0 <= v < |front| => front[v] / s);
      assert Total(ys) == Total(ys[..n]) + ys[n];
      assert Total(xs) / s == Total(front) / s + xs[n] / s;
    }
  }

  /** After normalisation a row with a nonzero sum sums to one. */
  lemma NormalizedRowSumsToOne(xs: seq<real>)
    requires Total(xs) != 0.0
    ensures Total(Normalize(xs)) == 1.0
  {
    var s := Total(xs);
    TotalDivided(xs, s);
    var ys := seq(|xs|, v requires 0 <= v < |xs| => xs[v] / s);
    assert forall v :: 0 <= v < |xs| ==> Normalize(xs)[v] == ys[v];
    assert Normalize(xs) == ys;
    assert Total(ys) == s / s == 1.0;
  }

  /** A heat sum is nonnegative: every term is a positive exponential
      times a square. */
  lemma {:induction false} HeatSumNonnegative(exp: real -> real, ev: seq<real>, row: seq<real>, t: real, n: nat)
    requires ExpIsExp(exp) && n <= |ev| && n <= |row|
    ensures HeatSum(exp, ev, row, t, n) >= 0.0
    decreases n
  {
    if n > 0 {
      HeatSumNonnegative(exp, ev, row, t, n - 1);
      var e, phi := exp(-ev[n - 1] * t), row[n - 1];
      assert e > 0.0;
      assert phi * phi >= 0.0;
      assert e * phi * phi == e * (phi * phi);
    }
  }

  lemma {:induction false} TotalNonnegative(xs: seq<real>)
    requires forall v :: 0 <= v < |xs| ==> xs[v] >= 0.0
    ensures Total(xs) >= 0.0
    decreases |xs|
  {
    if xs != [] {
      TotalNonnegative(xs[..|xs| - 1]);
    }
  }

  /** Every cell of the signature is nonnegative, before and after
      normalisation. */
  lemma SignatureNonnegative(exp: real -> real, ev: seq<real>, phi: seq<seq<real>>, t: real)
    requires ExpIsExp(exp) && forall v :: 0 <= v < |phi| ==> |phi[v]| >= |ev|
    ensures forall v :: 0 <= v < |phi| ==> HeatRow(exp, ev, phi, t)[v] >= 0.0
    ensures forall v :: 0 <= v < |phi| ==> Normalize(HeatRow(exp, ev, phi, t))[v] >= 0.0
  {
    var row := HeatRow(exp, ev, phi, t);
    forall v | 0 <= v < |phi| ensures row[v] >= 0.0 {
      HeatSumNonnegative(exp, ev, phi[v], t, |ev|);
    }
    TotalNonnegative(row);
  }

  /** With tmin < tmax every sample lies in [tmin, tmax): the first is tmin
      and the step divides the range by tscales, so tmax itself is never
      reached. */
  lemma SamplesWithinRange(exp: real -> real, log: real -> real, lo: real, hi: real, tscales: nat, i: nat)
    requires ExpIsExp(exp) && LogIsLog(exp, log) && 0.0 < lo < hi && i < tscales
    ensures lo <= Sample(exp, log, lo, hi, tscales, i) < hi
    ensures i == 0 ==> Sample(exp, log, lo, hi, tscales, i) == lo
  {
    var a, b := log(lo), log(hi);
    var step := Step(log, lo, hi, tscales);
    var n := tscales as real;
    assert a < b;
    assert step * n == b - a;
    assert step > 0.0;
    assert 0.0 <= step * i as real < step * n;
    assert exp(a) == lo && exp(b) == hi;
    if i > 0 {
      assert exp(a) < exp(a + step * i as real);
    }
  }

  /** The derived range is never empty: with the eigenvalues ascending,
      the second one positive and below the third, c / (last) lies below
      c / (second) for c = 4 log 10 > 0. */
  lemma DerivedRangeOrdered(log: real -> real, ev: seq<real>, tmin: real, tmax: real)
    requires !(tmin > 0.0 && tmax > 0.0) && log(10.0) > 0.0
    requires |ev| >= 3 && 0.0 < ev[1] < ev[2]
    requires forall i, j :: 0 <= i <= j < |ev| ==> ev[i] <= ev[j]
    ensures 0.0 < TimeRange(log, ev, tmin, tmax).0 < TimeRange(log, ev, tmin, tmax).1
  {
    var c := 4.0 * log(10.0);
    var last := ev[|ev| - 1];
    assert last >= ev[2] > ev[1] > 0.0;
    assert c / last > 0.0;
    assert c / last < c / ev[1] by {
      assert c * ev[1] < c * last;
      assert c / last == (c * ev[1]) / (last * ev[1]);
      assert c / ev[1] == (c * last) / (last * ev[1]);
    }
  }
}
