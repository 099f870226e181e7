/** `cotangent_matrix`: the stiffness matrix of the cotangent Laplacian.

    The source collects triplets in an unordered set whose hash and equality
    look at (row, column) only, so the set is a map from (row, column) to the
    value of the first triplet inserted there.  It doubles as a memo: at
    vertex i, for an incoming half-edge from j, the mirrored entry (j, i) is
    looked up; on a hit its value is copied to (i, j), on a miss the
    cotangent weight w is computed and -w stored at (i, j).  Either way w is
    added to the row sum, which becomes the diagonal entry (i, i).  Each
    entry of the map is one triplet of the finished matrix.

    The structural facts are proved for any per-half-edge weights w that
    agree on the two half-edges of an edge, and instantiated with the weight
    computed at the first visit of each edge. */
module CotangentLaplacian {
  import opened HalfEdgeMesh

  type Key = (nat, nat)

  /** `emplace` into the set: a key already present keeps its first value. */
  function Emplace(s: map<Key, real>, key: Key, value: real): (r: map<Key, real>)
    ensures r.Keys == s.Keys + {key}
    ensures forall k {:trigger k in s} :: k in s ==> r[k] == s[k]
    ensures key !in s ==> r[key] == value
  {
    if key in s then s else s[key := value]
  }

  /** The matrix position of the triplet for half-edge h: the row of its
      target, the column of its source. */
  function OffKey(m: Mesh, h: nat): Key
    requires h < |m.halfedges|
  {
    (m.halfedges[h].target, m.halfedges[h].source)
  }

  /** The cotangent weight evaluated for half-edge h from j into i: half
      the sum of the cotangents at the far corners va and vb of the faces of
      h and of its opposite.  Border half-edges are not skipped. */
  function Weight(m: Mesh, g: Geometry, h: nat): real
    requires WellFormed(m) && Embeds(m, g) && h < |m.halfedges|
  {
    assert HalfEdgeWellFormed(m, h);
    var he := m.halfedges[h];
    var va := ThirdVertex(m, h);
    var vb := ThirdVertex(m, he.opposite);
    var cota := g.cotangent(g.position[he.target], g.position[va], g.position[he.source]);
    var cotb := g.cotangent(g.position[he.target], g.position[vb], g.position[he.source]);
    (cota + cotb) * 0.5
  }

  /** Of h and its opposite, the one visited first: the one whose target,
      the vertex of the outer loop, comes first in the enumeration. */
  function FirstVisit(m: Mesh, h: nat): (f: nat)
    requires WellFormed(m) && h < |m.halfedges|
    ensures f < |m.halfedges|
  {
    assert HalfEdgeWellFormed(m, h);
    if m.halfedges[h].target < m.halfedges[h].source then h else m.halfedges[h].opposite
  }

  lemma FirstVisitOfOpposite(m: Mesh, h: nat)
    requires WellFormed(m) && h < |m.halfedges|
    ensures m.halfedges[h].opposite < |m.halfedges|
    ensures FirstVisit(m, m.halfedges[h].opposite) == FirstVisit(m, h)
    ensures (FirstVisit(m, h) == h) != (FirstVisit(m, m.halfedges[h].opposite) == m.halfedges[h].opposite)
  {
    OppositeReverses(m, h);
    assert HalfEdgeWellFormed(m, h);
  }

  /** The weight of the undirected edge of every half-edge: the one computed
      at the edge's first visit. */
  ghost function EdgeWeights(m: Mesh, g: Geometry): (w: seq<real>)
    requires WellFormed(m) && Embeds(m, g)
    ensures |w| == |m.halfedges|
    ensures forall h {:trigger FirstVisit(m, h)} :: 0 <= h < |m.halfedges| ==> w[h] == Weight(m, g, FirstVisit(m, h))
  {
    seq(|m.halfedges|, h requires 0 <= h < |m.halfedges| => Weight(m, g, FirstVisit(m, h)))
  }

  /** Weights that agree on the two half-edges of every edge. */
  ghost predicate EdgeSymmetric(m: Mesh, w: seq<real>) {
    && |w| == |m.halfedges|
    && forall h {:trigger w[m.halfedges[h].opposite]} :: 0 <= h < |m.halfedges| ==>
         m.halfedges[h].opposite < |m.halfedges| && w[m.halfedges[h].opposite] == w[h]
  }

  lemma EdgeWeightsSymmetric(m: Mesh, g: Geometry)
    requires WellFormed(m) && Embeds(m, g)
    ensures EdgeSymmetric(m, EdgeWeights(m, g))
  {
    forall h | 0 <= h < |m.halfedges|
      ensures m.halfedges[h].opposite < |m.halfedges|
      ensures EdgeWeights(m, g)[m.halfedges[h].opposite] == EdgeWeights(m, g)[h]
    {
      FirstVisitOfOpposite(m, h);
    }
  }

  /** The sum of the weights of the half-edges hs. */
  function WeightSum(w: seq<real>, hs: seq<nat>): real
    requires forall k :: 0 <= k < |hs| ==> hs[k] < |w|
  {
    if hs == [] then 0.0 else WeightSum(w, hs[..|hs| - 1]) + w[hs[|hs| - 1]]
  }

  ghost predicate IsEdge(m: Mesh, a: nat, b: nat) {
    exists h :: 0 <= h < |m.halfedges| && m.halfedges[h].source == a && m.halfedges[h].target == b
  }

  // ---------------------------------------------------------------------
  // The state of the set during assembly

  /** Every half-edge into a vertex below v has its entry, minus its weight. */
  ghost predicate OffEntries(m: Mesh, w: seq<real>, values: map<Key, real>, v: nat)
    requires |w| == |m.halfedges|
  {
    forall h {:trigger OffKey(m, h)} :: 0 <= h < |m.halfedges| && m.halfedges[h].target < v ==>
      OffKey(m, h) in values && values[OffKey(m, h)] == -w[h]
  }

  /** Every vertex below v has its diagonal entry, the sum of its row's weights. */
  ghost predicate DiagEntries(m: Mesh, w: seq<real>, values: map<Key, real>, v: nat)
    requires WellFormed(m) && |w| == |m.halfedges| && v <= m.nv
  {
    forall u {:trigger IncomingWellFormed(m, u)} :: 0 <= u < v ==>
      IncomingWellFormed(m, u) && (u, u) in values && values[(u, u)] == WeightSum(w, m.incoming[u])
  }

  /** Every entry lies in a row below v, on the diagonal or at an edge. */
  ghost predicate KeysBelow(m: Mesh, values: map<Key, real>, v: nat) {
    forall key {:trigger key in values} :: key in values ==> key.0 < v && (key.1 == key.0 || IsEdge(m, key.1, key.0))
  }

  /** The set once the outer loop has finished the vertices below v. */
  ghost predicate Assembled(m: Mesh, w: seq<real>, values: map<Key, real>, v: nat)
    requires WellFormed(m) && |w| == |m.halfedges|
  {
    && v <= m.nv
    && OffEntries(m, w, values, v)
    && DiagEntries(m, w, values, v)
    && KeysBelow(m, values, v)
  }

  ghost function RowKeys(m: Mesh, i: nat, k: nat): set<Key>
    requires WellFormed(m) && i < m.nv && k <= |m.incoming[i]|
  {
    assert IncomingWellFormed(m, i);
    set t | 0 <= t < k :: OffKey(m, m.incoming[i][t])
  }

  /** The first k half-edges into i have their entries. */
  ghost predicate RowEntries(m: Mesh, w: seq<real>, values: map<Key, real>, i: nat, k: nat)
    requires WellFormed(m) && |w| == |m.halfedges| && i < m.nv && k <= |m.incoming[i]|
  {
    assert IncomingWellFormed(m, i);
    forall t :: 0 <= t < k ==>
      OffKey(m, m.incoming[i][t]) in values && values[OffKey(m, m.incoming[i][t])] == -w[m.incoming[i][t]]
  }

  /** Every entry lies in a finished row, or in row i at a visited half-edge. */
  ghost predicate RowKeysBound(m: Mesh, values: map<Key, real>, i: nat, k: nat)
    requires WellFormed(m) && i < m.nv && k <= |m.incoming[i]|
  {
    forall key {:trigger key in values} :: key in values ==>
      (key.0 < i && (key.1 == key.0 || IsEdge(m, key.1, key.0))) ||
      (key.0 == i && key in RowKeys(m, i, k))
  }

  /** The set while the inner loop of row i has visited k half-edges. */
  ghost predicate RowPartial(m: Mesh, w: seq<real>, values: map<Key, real>, i: nat, k: nat)
    requires WellFormed(m) && |w| == |m.halfedges| && i < m.nv && k <= |m.incoming[i]|
  {
    && OffEntries(m, w, values, i)
    && DiagEntries(m, w, values, i)
    && RowEntries(m, w, values, i, k)
    && RowKeysBound(m, values, i, k)
  }

  ghost predicate Extends(values: map<Key, real>, values': map<Key, real>) {
    forall key {:trigger key in values} :: key in values ==> key in values' && values'[key] == values[key]
  }

  lemma StartRow(m: Mesh, w: seq<real>, values: map<Key, real>, i: nat)
    requires WellFormed(m) && |w| == |m.halfedges| && i < m.nv
    requires Assembled(m, w, values, i)
    ensures RowPartial(m, w, values, i, 0)
  {
  }

  /** One visit of the inner loop of row i, at its k-th incoming half-edge
      from j: the mirrored entry (j, i) is present exactly when j was
      enumerated earlier, and it then holds minus this edge's weight; the
      entry (i, j) is still free. */
  lemma VisitStep(m: Mesh, w: seq<real>, values: map<Key, real>, i: nat, k: nat)
    requires WellFormed(m) && EdgeSymmetric(m, w) && i < m.nv && k < |m.incoming[i]|
    requires OffEntries(m, w, values, i) && RowKeysBound(m, values, i, k)
    ensures IncomingWellFormed(m, i)
    ensures var h := m.incoming[i][k];
      var j := m.halfedges[h].source;
      && h < |m.halfedges| && m.halfedges[h].target == i && j < m.nv && j != i
      && OffKey(m, h) == (i, j)
      && ((j, i) in values <==> j < i)
      && ((j, i) in values ==> values[(j, i)] == -w[h])
      && (i, j) !in values
  {
    assert IncomingWellFormed(m, i);
    var hs := m.incoming[i];
    var h := hs[k];
    assert HalfEdgeWellFormed(m, h);
    var j := m.halfedges[h].source;
    var o := m.halfedges[h].opposite;
    OppositeReverses(m, h);
    if j < i {
      assert OffKey(m, o) == (j, i);
    }
    forall t | 0 <= t < k ensures OffKey(m, hs[t]) != (i, j) {
      assert hs[t] != h;
      assert NoMultiEdges(m);
      assert Ends(m, hs[t]) != Ends(m, h);
    }
    assert (i, j) !in RowKeys(m, i, k);
  }

  lemma ExtendsSelf(values: map<Key, real>, key: Key, value: real)
    requires key !in values
    ensures Extends(values, values[key := value])
  {
  }

  lemma OffEntriesExtend(m: Mesh, w: seq<real>, values: map<Key, real>, values': map<Key, real>, v: nat)
    requires |w| == |m.halfedges| && OffEntries(m, w, values, v) && Extends(values, values')
    ensures OffEntries(m, w, values', v)
  {
  }

  lemma DiagEntriesExtend(m: Mesh, w: seq<real>, values: map<Key, real>, values': map<Key, real>, v: nat)
    requires WellFormed(m) && |w| == |m.halfedges| && v <= m.nv
    requires DiagEntries(m, w, values, v) && Extends(values, values')
    ensures DiagEntries(m, w, values', v)
  {
    forall u | 0 <= u < v
      ensures IncomingWellFormed(m, u) && (u, u) in values' && values'[(u, u)] == WeightSum(w, m.incoming[u])
    {
      assert IncomingWellFormed(m, u);
    }
  }

  lemma RowEntriesExtend(m: Mesh, w: seq<real>, values: map<Key, real>, i: nat, k: nat)
    requires WellFormed(m) && |w| == |m.halfedges| && i < m.nv && k < |m.incoming[i]|
    requires IncomingWellFormed(m, i) && m.incoming[i][k] < |m.halfedges|
    requires RowEntries(m, w, values, i, k)
    requires OffKey(m, m.incoming[i][k]) !in values
    ensures RowEntries(m, w, values[OffKey(m, m.incoming[i][k]) := -w[m.incoming[i][k]]], i, k + 1)
  {
  }

  lemma RowKeysBoundExtend(m: Mesh, values: map<Key, real>, i: nat, k: nat, value: real)
    requires WellFormed(m) && i < m.nv && k < |m.incoming[i]|
    requires IncomingWellFormed(m, i) && m.incoming[i][k] < |m.halfedges|
    requires m.halfedges[m.incoming[i][k]].target == i
    requires RowKeysBound(m, values, i, k)
    ensures RowKeysBound(m, values[OffKey(m, m.incoming[i][k]) := value], i, k + 1)
  {
    var key := OffKey(m, m.incoming[i][k]);
    assert RowKeys(m, i, k + 1) == RowKeys(m, i, k) + {key};
  }

  /** The inner loop's invariant survives storing minus the weight of the
      k-th half-edge at its free position. */
  lemma RowPartialExtend(m: Mesh, w: seq<real>, values: map<Key, real>, i: nat, k: nat)
    requires WellFormed(m) && |w| == |m.halfedges| && i < m.nv && k < |m.incoming[i]|
    requires RowPartial(m, w, values, i, k)
    requires IncomingWellFormed(m, i) && m.incoming[i][k] < |m.halfedges|
    requires m.halfedges[m.incoming[i][k]].target == i
    requires OffKey(m, m.incoming[i][k]) !in values
    ensures RowPartial(m, w, values[OffKey(m, m.incoming[i][k]) := -w[m.incoming[i][k]]], i, k + 1)
  {
    var key := OffKey(m, m.incoming[i][k]);
    var value := -w[m.incoming[i][k]];
    var values' := values[key := value];
    ExtendsSelf(values, key, value);
    OffEntriesExtend(m, w, values, values', i);
    DiagEntriesExtend(m, w, values, values', i);
    RowEntriesExtend(m, w, values, i, k);
    RowKeysBoundExtend(m, values, i, k, value);
  }

  /** Closing row i: the diagonal entry (i, i) is still free. */
  lemma DiagonalFree(m: Mesh, values: map<Key, real>, i: nat)
    requires WellFormed(m) && i < m.nv
    requires RowKeysBound(m, values, i, |m.incoming[i]|)
    ensures (i, i) !in values
  {
    assert IncomingWellFormed(m, i);
    var hs := m.incoming[i];
    forall t | 0 <= t < |hs| ensures OffKey(m, hs[t]) != (i, i) {
      assert HalfEdgeWellFormed(m, hs[t]);
    }
  }

  lemma CloseRowEntries(m: Mesh, w: seq<real>, values: map<Key, real>, values': map<Key, real>, i: nat)
    requires WellFormed(m) && |w| == |m.halfedges| && i < m.nv
    requires OffEntries(m, w, values, i) && RowEntries(m, w, values, i, |m.incoming[i]|)
    requires Extends(values, values')
    ensures OffEntries(m, w, values', i + 1)
  {
    assert IncomingWellFormed(m, i);
    var hs := m.incoming[i];
    forall h | 0 <= h < |m.halfedges| && m.halfedges[h].target < i + 1
      ensures OffKey(m, h) in values' && values'[OffKey(m, h)] == -w[h]
    {
      if m.halfedges[h].target == i {
        assert h in hs;
        var t :| 0 <= t < |hs| && hs[t] == h;
      }
    }
  }

  lemma CloseRowKeys(m: Mesh, values: map<Key, real>, i: nat, value: real)
    requires WellFormed(m) && i < m.nv
    requires RowKeysBound(m, values, i, |m.incoming[i]|)
    ensures KeysBelow(m, values[(i, i) := value], i + 1)
  {
    assert IncomingWellFormed(m, i);
    var hs := m.incoming[i];
    forall key | key in values[(i, i) := value]
      ensures key.0 < i + 1 && (key.1 == key.0 || IsEdge(m, key.1, key.0))
    {
      if key in values && key.0 == i {
        assert key in RowKeys(m, i, |hs|);
        var t :| 0 <= t < |hs| && OffKey(m, hs[t]) == key;
        assert m.halfedges[hs[t]].source == key.1 && m.halfedges[hs[t]].target == key.0;
      }
    }
  }

  /** Closing row i: with the row sum stored on the diagonal, the rows up to
      i are finished. */
  lemma CloseRow(m: Mesh, w: seq<real>, values: map<Key, real>, i: nat, rowSum: real)
    requires WellFormed(m) && |w| == |m.halfedges| && i < m.nv
    requires RowPartial(m, w, values, i, |m.incoming[i]|)
    requires IncomingWellFormed(m, i) && rowSum == WeightSum(w, m.incoming[i])
    ensures (i, i) !in values
    ensures Assembled(m, w, values[(i, i) := rowSum], i + 1)
  {
    DiagonalFree(m, values, i);
    var values' := values[(i, i) := rowSum];
    ExtendsSelf(values, (i, i), rowSum);
    CloseRowEntries(m, w, values, values', i);
    DiagEntriesExtend(m, w, values, values', i);
    CloseRowDiagonal(m, w, values', i, rowSum);
    CloseRowKeys(m, values, i, rowSum);
  }

  /** The diagonal entry of row i, stored, finishes the diagonal up to i. */
  lemma CloseRowDiagonal(m: Mesh, w: seq<real>, values: map<Key, real>, i: nat, rowSum: real)
    requires WellFormed(m) && |w| == |m.halfedges| && i < m.nv
    requires DiagEntries(m, w, values, i) && (i, i) in values && values[(i, i)] == rowSum
    requires IncomingWellFormed(m, i) && rowSum == WeightSum(w, m.incoming[i])
    ensures DiagEntries(m, w, values, i + 1)
  {
    forall u | 0 <= u < i + 1
      ensures IncomingWellFormed(m, u) && (u, u) in values && values[(u, u)] == WeightSum(w, m.incoming[u])
    {
      if u < i {
        assert IncomingWellFormed(m, u);
      }
    }
  }

  lemma WeightSumSnoc(w: seq<real>, hs: seq<nat>, k: nat)
    requires k < |hs| && forall t :: 0 <= t < |hs| ==> hs[t] < |w|
    ensures WeightSum(w, hs[..k + 1]) == WeightSum(w, hs[..k]) + w[hs[k]]
  {
    assert hs[..k + 1][..k] == hs[..k];
  }

  /** The cotangent weight computation of the source, for half-edge h. */
  method ComputeWeight(m: Mesh, g: Geometry, h: nat) returns (value: real)
    requires WellFormed(m) && Embeds(m, g) && h < |m.halfedges|
    ensures value == Weight(m, g, h)
  {
    assert HalfEdgeWellFormed(m, h);
    var vi := m.halfedges[h].target;
    var vj := m.halfedges[h].source;
    var va := ThirdVertex(m, h);
    var vb := ThirdVertex(m, m.halfedges[h].opposite);
    var cota := g.cotangent(g.position[vi], g.position[va], g.position[vj]);
    var cotb := g.cotangent(g.position[vi], g.position[vb], g.position[vj]);
    value := (cota + cotb) * 0.5;
  }

  /** `cotangent_matrix`.  The ghost list records the half-edges at which a
      cotangent weight was evaluated. */
  method CotangentMatrix(m: Mesh, g: Geometry) returns (values: map<Key, real>, ghost evaluated: seq<nat>)
    requires WellFormed(m) && Embeds(m, g)
    ensures Assembled(m, EdgeWeights(m, g), values, m.nv)
    ensures forall h :: 0 <= h < |m.halfedges| ==> (h in evaluated <==> FirstVisit(m, h) == h)
    ensures forall a, b :: 0 <= a < b < |evaluated| ==> evaluated[a] != evaluated[b]
  {
    ghost var w := EdgeWeights(m, g);
    values := map[];
    evaluated := [];
    var i := 0;
    while i < m.nv
      invariant 0 <= i <= m.nv
      invariant Assembled(m, w, values, i)
      invariant EvaluatedBelow(m, evaluated, i)
    {
      var rowSum;
      ghost var rowEvaluated;
      values, rowSum, rowEvaluated := AssembleRow(m, g, w, values, i);
      FinishRow(m, w, values, i, rowSum, evaluated, rowEvaluated);
      values := Emplace(values, (i, i), rowSum);
      evaluated := evaluated + rowEvaluated;
      i := i + 1;
    }
    EvaluatedAll(m, evaluated);
  }

  lemma FinishRow(m: Mesh, w: seq<real>, values: map<Key, real>, i: nat, rowSum: real,
                  evaluated: seq<nat>, rowEvaluated: seq<nat>)
    requires WellFormed(m) && |w| == |m.halfedges| && i < m.nv
    requires RowPartial(m, w, values, i, |m.incoming[i]|)
    requires IncomingWellFormed(m, i) && rowSum == WeightSum(w, m.incoming[i])
    requires EvaluatedBelow(m, evaluated, i)
    requires RowEvaluated(m, rowEvaluated, i, |m.incoming[i]|)
    ensures Assembled(m, w, Emplace(values, (i, i), rowSum), i + 1)
    ensures EvaluatedBelow(m, evaluated + rowEvaluated, i + 1)
  {
    CloseRow(m, w, values, i, rowSum);
    assert Emplace(values, (i, i), rowSum) == values[(i, i) := rowSum];
    EvaluatedStep(m, i, evaluated, rowEvaluated);
  }

  lemma EvaluatedAll(m: Mesh, evaluated: seq<nat>)
    requires WellFormed(m) && EvaluatedBelow(m, evaluated, m.nv)
    ensures forall h :: 0 <= h < |m.halfedges| ==> (h in evaluated <==> FirstVisit(m, h) == h)
    ensures forall a, b :: 0 <= a < b < |evaluated| ==> evaluated[a] != evaluated[b]
  {
    forall h | 0 <= h < |m.halfedges| ensures h in evaluated <==> FirstVisit(m, h) == h {
      assert HalfEdgeWellFormed(m, h);
    }
  }

  /** The inner loop of `cotangent_matrix` at vertex i: one entry per
      incoming half-edge, copied from the mirrored entry when that one is
      present and computed otherwise, and the sum of the row's weights. */
  method AssembleRow(m: Mesh, g: Geometry, ghost w: seq<real>, values0: map<Key, real>, i: nat)
    returns (values: map<Key, real>, rowSum: real, ghost rowEvaluated: seq<nat>)
    requires WellFormed(m) && Embeds(m, g) && w == EdgeWeights(m, g) && i < m.nv
    requires Assembled(m, w, values0, i)
    ensures RowPartial(m, w, values, i, |m.incoming[i]|)
    ensures IncomingWellFormed(m, i) && rowSum == WeightSum(w, m.incoming[i])
    ensures RowEvaluated(m, rowEvaluated, i, |m.incoming[i]|)
  {
    assert IncomingWellFormed(m, i);
    var hs := m.incoming[i];
    values, rowSum, rowEvaluated := values0, 0.0, [];
    StartRow(m, w, values, i);
    var k := 0;
    while k < |hs|
      invariant 0 <= k <= |hs|
      invariant RowState(m, w, values, rowEvaluated, i, k)
      invariant rowSum == WeightSum(w, hs[..k])
    {
      values, rowSum, rowEvaluated := Visit(m, g, w, values, rowSum, rowEvaluated, i, k);
      k := k + 1;
    }
    assert hs[..k] == hs;
  }

  /** One iteration of the inner loop: the k-th half-edge h into i, from j.
      The entry (j, i) is looked up; its value is copied on a hit, and on a
      miss the weight is evaluated.  The entry for (i, j) is emplaced and the
      weight added to the row sum. */
  method Visit(m: Mesh, g: Geometry, ghost w: seq<real>, values0: map<Key, real>, rowSum0: real,
               ghost rowEvaluated0: seq<nat>, i: nat, k: nat)
    returns (values: map<Key, real>, rowSum: real, ghost rowEvaluated: seq<nat>)
    requires WellFormed(m) && Embeds(m, g) && w == EdgeWeights(m, g) && i < m.nv
    requires k < |m.incoming[i]| && RowState(m, w, values0, rowEvaluated0, i, k)
    requires IncomingWellFormed(m, i) && rowSum0 == WeightSum(w, m.incoming[i][..k])
    ensures RowState(m, w, values, rowEvaluated, i, k + 1)
    ensures rowSum == WeightSum(w, m.incoming[i][..k + 1])
  {
    var h := m.incoming[i][k];
    var j := m.halfedges[h].source;
    MirrorFacts(m, g, w, values0, rowEvaluated0, i, k);
    var entry: real;
    rowEvaluated := rowEvaluated0;
    if (j, i) in values0 {
      entry := values0[(j, i)];
    } else {
      var weight := ComputeWeight(m, g, h);
      entry := -weight;
      rowEvaluated := rowEvaluated + [h];
    }
    assert entry == -w[h];
    values := Emplace(values0, (i, j), entry);
    rowSum := rowSum0 - entry;
    VisitDone(m, w, values0, rowEvaluated0, values, rowEvaluated, i, k, h, j, entry, (j, i) in values0);
  }

  /** The invariant of the inner loop at vertex i after k visits, apart from
      the row sum. */
  ghost predicate RowState(m: Mesh, w: seq<real>, values: map<Key, real>, rowEvaluated: seq<nat>, i: nat, k: nat)
    requires WellFormed(m) && |w| == |m.halfedges| && i < m.nv
  {
    && k <= |m.incoming[i]|
    && RowPartial(m, w, values, i, k)
    && RowEvaluated(m, rowEvaluated, i, k)
  }

  /** What a visit finds: on a hit, minus this edge's weight at the mirrored
      position; on a miss, this half-edge is the edge's first visit, whose
      weight the edge carries. */
  lemma MirrorFacts(m: Mesh, g: Geometry, w: seq<real>, values: map<Key, real>,
                    rowEvaluated: seq<nat>, i: nat, k: nat)
    requires WellFormed(m) && Embeds(m, g) && w == EdgeWeights(m, g) && i < m.nv
    requires k < |m.incoming[i]| && RowState(m, w, values, rowEvaluated, i, k)
    ensures IncomingWellFormed(m, i) && EdgeSymmetric(m, w)
    ensures var h := m.incoming[i][k];
      var mirror := (m.halfedges[h].source, i);
      && h < |m.halfedges|
      && (mirror in values ==> values[mirror] == -w[h])
      && (mirror !in values ==> Weight(m, g, h) == w[h])
  {
    EdgeWeightsSymmetric(m, g);
    VisitStep(m, w, values, i, k);
    RowEvaluatedStep(m, rowEvaluated, i, k);
    var h := m.incoming[i][k];
    assert FirstVisit(m, h) == h ==> w[h] == Weight(m, g, h);
  }

  /** Storing minus the weight at the visited position, and recording the
      evaluation on a miss, keeps the inner loop's invariant. */
  lemma VisitDone(m: Mesh, w: seq<real>, values: map<Key, real>, rowEvaluated: seq<nat>,
                  values': map<Key, real>, rowEvaluated': seq<nat>, i: nat, k: nat,
                  h: nat, j: nat, entry: real, hit: bool)
    requires WellFormed(m) && |w| == |m.halfedges| && EdgeSymmetric(m, w) && i < m.nv
    requires k < |m.incoming[i]| && RowState(m, w, values, rowEvaluated, i, k)
    requires IncomingWellFormed(m, i) && h == m.incoming[i][k] && h < |m.halfedges| && j == m.halfedges[h].source
    requires entry == -w[h] && hit == ((j, i) in values)
    requires values' == Emplace(values, (i, j), entry)
    requires rowEvaluated' == if hit then rowEvaluated else rowEvaluated + [h]
    ensures RowState(m, w, values', rowEvaluated', i, k + 1)
    ensures WeightSum(w, m.incoming[i][..k + 1]) == WeightSum(w, m.incoming[i][..k]) + w[h]
  {
    VisitPartial(m, w, values, values', i, k, h, j, entry);
    VisitEvaluated(m, rowEvaluated, rowEvaluated', i, k, h, j, hit);
    WeightSumSnoc(w, m.incoming[i], k);
  }

  /** Emplacing minus the weight at the free position (i, j) keeps the set's
      part of the inner loop's invariant; the mirrored entry is there
      exactly when j < i. */
  lemma VisitPartial(m: Mesh, w: seq<real>, values: map<Key, real>, values': map<Key, real>,
                     i: nat, k: nat, h: nat, j: nat, entry: real)
    requires WellFormed(m) && |w| == |m.halfedges| && EdgeSymmetric(m, w) && i < m.nv
    requires k < |m.incoming[i]| && RowPartial(m, w, values, i, k)
    requires IncomingWellFormed(m, i) && h == m.incoming[i][k] && h < |m.halfedges| && j == m.halfedges[h].source
    requires entry == -w[h] && values' == Emplace(values, (i, j), entry)
    ensures RowPartial(m, w, values', i, k + 1)
    ensures j != i && ((j, i) in values <==> j < i)
  {
    VisitStep(m, w, values, i, k);
    RowPartialExtend(m, w, values, i, k);
  }

  /** Recording h exactly on a miss keeps the evaluations' part of the
      inner loop's invariant. */
  lemma VisitEvaluated(m: Mesh, rowEvaluated: seq<nat>, rowEvaluated': seq<nat>, i: nat, k: nat, h: nat, j: nat, hit: bool)
    requires WellFormed(m) && i < m.nv && k < |m.incoming[i]| && RowEvaluated(m, rowEvaluated, i, k)
    requires IncomingWellFormed(m, i) && h == m.incoming[i][k] && h < |m.halfedges| && j == m.halfedges[h].source
    requires j != i && (hit <==> j < i)
    requires rowEvaluated' == if hit then rowEvaluated else rowEvaluated + [h]
    ensures RowEvaluated(m, rowEvaluated', i, k + 1)
  {
    RowEvaluatedStep(m, rowEvaluated, i, k);
  }

  /** The evaluations recorded while visiting the first k half-edges of row
      i: those of them visited first, once each. */
  ghost predicate RowEvaluated(m: Mesh, rowEvaluated: seq<nat>, i: nat, k: nat)
    requires WellFormed(m) && i < m.nv && k <= |m.incoming[i]|
  {
    assert IncomingWellFormed(m, i);
    var hs := m.incoming[i];
    && (forall t :: 0 <= t < |rowEvaluated| ==> rowEvaluated[t] in hs[..k])
    && (forall t :: 0 <= t < k ==> (hs[t] in rowEvaluated <==> FirstVisit(m, hs[t]) == hs[t]))
    && (forall a, b :: 0 <= a < b < |rowEvaluated| ==> rowEvaluated[a] != rowEvaluated[b])
  }

  lemma RowEvaluatedStep(m: Mesh, rowEvaluated: seq<nat>, i: nat, k: nat)
    requires WellFormed(m) && i < m.nv && k < |m.incoming[i]|
    requires RowEvaluated(m, rowEvaluated, i, k)
    ensures IncomingWellFormed(m, i)
    ensures var h := m.incoming[i][k];
      && h < |m.halfedges|
      && (FirstVisit(m, h) == h <==> i < m.halfedges[h].source)
      && (FirstVisit(m, h) != h ==> RowEvaluated(m, rowEvaluated, i, k + 1))
      && (FirstVisit(m, h) == h ==> RowEvaluated(m, rowEvaluated + [h], i, k + 1))
  {
    assert IncomingWellFormed(m, i);
    var hs := m.incoming[i];
    var h := hs[k];
    assert HalfEdgeWellFormed(m, h);
    assert hs[..k + 1] == hs[..k] + [h];
  }

  /** The evaluations recorded once the vertices below v are finished. */
  ghost predicate EvaluatedBelow(m: Mesh, evaluated: seq<nat>, v: nat)
    requires WellFormed(m)
  {
    && (forall t :: 0 <= t < |evaluated| ==>
          evaluated[t] < |m.halfedges| && m.halfedges[evaluated[t]].target < v)
    && (forall h :: 0 <= h < |m.halfedges| && m.halfedges[h].target < v ==>
          (h in evaluated <==> FirstVisit(m, h) == h))
    && (forall a, b :: 0 <= a < b < |evaluated| ==> evaluated[a] != evaluated[b])
  }

  lemma EvaluatedStep(m: Mesh, i: nat, evaluated: seq<nat>, rowEvaluated: seq<nat>)
    requires WellFormed(m) && i < m.nv
    requires EvaluatedBelow(m, evaluated, i)
    requires RowEvaluated(m, rowEvaluated, i, |m.incoming[i]|)
    ensures EvaluatedBelow(m, evaluated + rowEvaluated, i + 1)
  {
    assert IncomingWellFormed(m, i);
    var hs := m.incoming[i];
    assert hs[..|hs|] == hs;
    var e := evaluated + rowEvaluated;
    forall t | 0 <= t < |rowEvaluated|
      ensures rowEvaluated[t] < |m.halfedges| && m.halfedges[rowEvaluated[t]].target == i
    {
      var s :| 0 <= s < |hs| && hs[s] == rowEvaluated[t];
    }
    forall h | 0 <= h < |m.halfedges| && m.halfedges[h].target == i
      ensures h in e <==> FirstVisit(m, h) == h
    {
      assert h in hs;
      var s :| 0 <= s < |hs| && hs[s] == h;
      assert h !in evaluated;
    }
    forall a, b | 0 <= a < b < |e| ensures e[a] != e[b] {
      if a < |evaluated| <= b {
        assert m.halfedges[e[a]].target < i;
        assert m.halfedges[e[b]].target == i;
      }
    }
  }

  // ---------------------------------------------------------------------
  // Properties of the finished matrix

  /** Every position of the matrix lies inside the n x n square. */
  lemma KeysInRange(m: Mesh, w: seq<real>, values: map<Key, real>)
    requires WellFormed(m) && |w| == |m.halfedges| && Assembled(m, w, values, m.nv)
    ensures forall key :: key in values ==> key.0 < m.nv && key.1 < m.nv
  {
    forall key | key in values ensures key.1 < m.nv {
      if key.1 != key.0 {
        var h :| 0 <= h < |m.halfedges| && m.halfedges[h].source == key.1 && m.halfedges[h].target == key.0;
        assert HalfEdgeWellFormed(m, h);
      }
    }
  }

  /** Exact symmetry: the mirrored position holds the very same value. */
  lemma Symmetric(m: Mesh, w: seq<real>, values: map<Key, real>)
    requires WellFormed(m) && EdgeSymmetric(m, w) && Assembled(m, w, values, m.nv)
    ensures forall r, c :: (r, c) in values ==> (c, r) in values && values[(c, r)] == values[(r, c)]
  {
    forall r, c | (r, c) in values ensures (c, r) in values && values[(c, r)] == values[(r, c)] {
      if r != c {
        SymmetricAt(m, w, values, r, c);
      }
    }
  }

  lemma SymmetricAt(m: Mesh, w: seq<real>, values: map<Key, real>, r: nat, c: nat)
    requires WellFormed(m) && EdgeSymmetric(m, w) && Assembled(m, w, values, m.nv)
    requires (r, c) in values && r != c
    ensures (c, r) in values && values[(c, r)] == values[(r, c)]
  {
    assert IsEdge(m, c, r);
    var h :| 0 <= h < |m.halfedges| && m.halfedges[h].source == c && m.halfedges[h].target == r;
    OppositeReverses(m, h);
    var o := m.halfedges[h].opposite;
    assert OffKey(m, h) == (r, c) && OffKey(m, o) == (c, r);
    assert m.halfedges[h].target < m.nv && m.halfedges[o].target < m.nv by {
      assert HalfEdgeWellFormed(m, h);
    }
  }

  /** The off-diagonal entries of row i are exactly the positions
      (i, source h) of the half-edges h into i, one per half-edge. */
  lemma RowOffDiagonalPositions(m: Mesh, w: seq<real>, values: map<Key, real>, i: nat)
    requires WellFormed(m) && |w| == |m.halfedges| && Assembled(m, w, values, m.nv) && i < m.nv
    ensures IncomingWellFormed(m, i)
    ensures forall c :: (i, c) in values && c != i <==>
      exists t :: 0 <= t < |m.incoming[i]| && OffKey(m, m.incoming[i][t]) == (i, c)
    ensures forall a, b :: 0 <= a < b < |m.incoming[i]| ==>
      OffKey(m, m.incoming[i][a]) != OffKey(m, m.incoming[i][b])
  {
    assert IncomingWellFormed(m, i);
    var hs := m.incoming[i];
    forall c | (i, c) in values && c != i
      ensures exists t :: 0 <= t < |hs| && OffKey(m, hs[t]) == (i, c)
    {
      var h :| 0 <= h < |m.halfedges| && m.halfedges[h].source == c && m.halfedges[h].target == i;
      assert h in hs;
      var t :| 0 <= t < |hs| && hs[t] == h;
      assert OffKey(m, hs[t]) == (i, c);
    }
    forall c | exists t :: 0 <= t < |hs| && OffKey(m, hs[t]) == (i, c)
      ensures (i, c) in values && c != i
    {
      var t :| 0 <= t < |hs| && OffKey(m, hs[t]) == (i, c);
      assert HalfEdgeWellFormed(m, hs[t]);
    }
    forall a, b | 0 <= a < b < |hs| ensures OffKey(m, hs[a]) != OffKey(m, hs[b]) {
      assert NoMultiEdges(m);
      assert Ends(m, hs[a]) != Ends(m, hs[b]);
    }
  }

  /** The sum of the entries at the positions of the half-edges hs. */
  function OffDiagonalSum(m: Mesh, values: map<Key, real>, hs: seq<nat>): real
    requires forall k :: 0 <= k < |hs| ==> hs[k] < |m.halfedges|
  {
    if hs == [] then 0.0
    else
      var key := OffKey(m, hs[|hs| - 1]);
      OffDiagonalSum(m, values, hs[..|hs| - 1]) + (if key in values then values[key] else 0.0)
  }

  lemma {:induction false} OffDiagonalSumIsMinusWeights(m: Mesh, w: seq<real>, values: map<Key, real>, i: nat, k: nat)
    requires WellFormed(m) && |w| == |m.halfedges| && Assembled(m, w, values, m.nv) && i < m.nv
    requires k <= |m.incoming[i]|
    ensures IncomingWellFormed(m, i)
    ensures OffDiagonalSum(m, values, m.incoming[i][..k]) == -WeightSum(w, m.incoming[i][..k])
  {
    assert IncomingWellFormed(m, i);
    var hs := m.incoming[i];
    if k > 0 {
      OffDiagonalSumIsMinusWeights(m, w, values, i, k - 1);
      assert hs[..k][..k - 1] == hs[..k - 1];
      assert m.halfedges[hs[k - 1]].target == i;
    }
  }

  /** Zero row sums: the diagonal entry of row i is minus the sum of the
      row's off-diagonal entries. */
  lemma RowSumsToZero(m: Mesh, w: seq<real>, values: map<Key, real>, i: nat)
    requires WellFormed(m) && |w| == |m.halfedges| && Assembled(m, w, values, m.nv) && i < m.nv
    ensures IncomingWellFormed(m, i)
    ensures (i, i) in values
    ensures values[(i, i)] + OffDiagonalSum(m, values, m.incoming[i]) == 0.0
  {
    OffDiagonalSumIsMinusWeights(m, w, values, i, |m.incoming[i]|);
    assert m.incoming[i][..|m.incoming[i]|] == m.incoming[i];
  }

  /** The weight of an undirected edge is evaluated at exactly one of its two
      half-edges. */
  lemma EvaluatedOncePerEdge(m: Mesh, evaluated: seq<nat>, h: nat)
    requires WellFormed(m) && h < |m.halfedges|
    requires forall x :: 0 <= x < |m.halfedges| ==> (x in evaluated <==> FirstVisit(m, x) == x)
    ensures m.halfedges[h].opposite < |m.halfedges|
    ensures (h in evaluated) != (m.halfedges[h].opposite in evaluated)
  {
    FirstVisitOfOpposite(m, h);
    OppositeReverses(m, h);
  }
}
