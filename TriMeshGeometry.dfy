/** Per-vertex areas, the adjacency and degree matrices and the mass matrix
    of a triangle mesh.  Matrices are produced as the lists of
    (row, column, value) triplets that are handed to the sparse-matrix
    builder, which adds up triplets that share a position. */
module TriMeshGeometry {
  import opened HalfEdgeMesh

  /** The areal weightings `vertex_area` offers. */
  datatype VertexArea = Barycentric | Voronoi | MixedVoronoi

  datatype Triplet = Triplet(row: nat, col: nat, value: real)

  /** The part of the triangle (p1, p2, p3) that a weighting assigns to its
      corner p2: the loop body of `vertex_area` for one non-border half-edge
      from p1 into p2 whose face continues to p3.  The barycentric share is
      the whole area, scaled by one third after the loop. */
  function FaceShare(g: Geometry, weighting: VertexArea, p1: Point, p2: Point, p3: Point): real {
    match weighting
    case Barycentric => g.area(p1, p2, p3)
    case Voronoi =>
      var mid1 := Midpoint(p2, p1);
      var mid2 := Midpoint(p2, p3);
      var center := g.circumcenter(p1, p2, p3);
      if ObtuseAt(p2, p1, p3) then g.area(mid1, p2, center) - g.area(mid2, center, p2)
      else if ObtuseAt(p2, p3, p1) then g.area(mid2, center, p2) - g.area(mid1, p2, center)
      else g.area(mid1, p2, center) + g.area(mid2, center, p2)
    case MixedVoronoi =>
      if ObtuseAt(p1, p2, p3) then g.area(p1, p2, p3) * 0.5
      else if ObtuseAt(p3, p1, p2) || ObtuseAt(p1, p3, p2) then g.area(p1, p2, p3) * 0.25
      else
        var mid1 := Midpoint(p2, p1);
        var mid2 := Midpoint(p2, p3);
        var center := g.circumcenter(p1, p2, p3);
        g.area(mid1, p2, center) + g.area(mid2, center, p2)
  }

  /** What half-edge h adds to the area of its target: nothing for a border
      half-edge, otherwise the share of its face. */
  function Contribution(m: Mesh, g: Geometry, weighting: VertexArea, h: nat): real
    requires TriangleMesh(m) && Embeds(m, g) && h < |m.halfedges|
  {
    assert HalfEdgeWellFormed(m, h);
    var he := m.halfedges[h];
    if he.isBorder then 0.0
    else FaceShare(g, weighting, g.position[he.source], g.position[he.target], g.position[ThirdVertex(m, h)])
  }

  ghost predicate ValidHalfedges(m: Mesh, hs: seq<nat>) {
    forall k :: 0 <= k < |hs| ==> hs[k] < |m.halfedges|
  }

  /** The accumulator of `vertex_area` after visiting the half-edges hs. */
  function AreaSum(m: Mesh, g: Geometry, weighting: VertexArea, hs: seq<nat>): real
    requires TriangleMesh(m) && Embeds(m, g) && ValidHalfedges(m, hs)
  {
    if hs == [] then 0.0
    else AreaSum(m, g, weighting, hs[..|hs| - 1]) + Contribution(m, g, weighting, hs[|hs| - 1])
  }

  lemma IncomingValid(m: Mesh, v: nat)
    requires TriangleMesh(m) && v < m.nv
    ensures ValidHalfedges(m, m.incoming[v])
  {
    assert IncomingWellFormed(m, v);
  }

  /** The area `vertex_area` reports for vertex v. */
  function VertexAreaOf(m: Mesh, g: Geometry, weighting: VertexArea, v: nat): real
    requires TriangleMesh(m) && Embeds(m, g) && v < m.nv
  {
    IncomingValid(m, v);
    var sum := AreaSum(m, g, weighting, m.incoming[v]);
    if weighting == Barycentric then sum * (1.0 / 3.0) else sum
  }

  /** `vertex_area`: accumulate the shares of the faces around v. */
  method VertexAreaAt(m: Mesh, g: Geometry, v: nat, weighting: VertexArea) returns (va: real)
    requires TriangleMesh(m) && Embeds(m, g) && v < m.nv
    ensures va == VertexAreaOf(m, g, weighting, v)
  {
    IncomingValid(m, v);
    var hs := m.incoming[v];
    va := 0.0;
    var k := 0;
    while k < |hs|
      invariant 0 <= k <= |hs|
      invariant va == AreaSum(m, g, weighting, hs[..k])
    {
      assert hs[..k + 1][..k] == hs[..k];
      va := va + Contribution(m, g, weighting, hs[k]);
      k := k + 1;
    }
    assert hs[..k] == hs;
    if weighting == Barycentric {
      va := va * (1.0 / 3.0);
    }
  }

  /** `vertex_areas`: the area of every vertex, in vertex order. */
  method VertexAreas(m: Mesh, g: Geometry, weighting: VertexArea) returns (areas: seq<real>)
    requires TriangleMesh(m) && Embeds(m, g)
    ensures |areas| == m.nv
    ensures forall v :: 0 <= v < m.nv ==> areas[v] == VertexAreaOf(m, g, weighting, v)
  {
    areas := [];
    var v := 0;
    while v < m.nv
      invariant 0 <= v <= m.nv && |areas| == v
      invariant forall u :: 0 <= u < v ==> areas[u] == VertexAreaOf(m, g, weighting, u)
    {
      var a := VertexAreaAt(m, g, v, weighting);
      areas := areas + [a];
      v := v + 1;
    }
  }

  /** `mass_matrix`: one diagonal triplet per vertex, placed by the
      enumeration counter. */
  method MassMatrix(m: Mesh, g: Geometry, weighting: VertexArea) returns (values: seq<Triplet>)
    requires TriangleMesh(m) && Embeds(m, g)
    ensures |values| == m.nv
    ensures forall k :: 0 <= k < |values| ==>
      values[k] == Triplet(k, k, VertexAreaOf(m, g, weighting, k))
  {
    values := [];
    var i := 0;
    var v := 0;
    while v < m.nv
      invariant 0 <= v <= m.nv && i == v && |values| == i
      invariant forall k :: 0 <= k < i ==> values[k] == Triplet(k, k, VertexAreaOf(m, g, weighting, k))
    {
      var area := VertexAreaAt(m, g, v, weighting);
      values := values + [Triplet(i, i, area)];
      i := i + 1;
      v := v + 1;
    }
  }

  // ---------------------------------------------------------------------
  // Properties of the vertex areas

  function NonBorder(m: Mesh, hs: seq<nat>): (r: seq<nat>)
    requires ValidHalfedges(m, hs)
    ensures ValidHalfedges(m, r)
    ensures forall h :: h in r <==> h in hs && !m.halfedges[h].isBorder
  {
    if hs == [] then []
    else
      var rest := NonBorder(m, hs[..|hs| - 1]);
      assert forall h :: h in hs <==> h in hs[..|hs| - 1] || h == hs[|hs| - 1];
      if m.halfedges[hs[|hs| - 1]].isBorder then rest else rest + [hs[|hs| - 1]]
  }

  /** Border half-edges add nothing: the sum over all incoming half-edges is
      the sum over the non-border ones. */
  lemma {:induction false} BorderContributesNothing(m: Mesh, g: Geometry, weighting: VertexArea, hs: seq<nat>)
    requires TriangleMesh(m) && Embeds(m, g) && ValidHalfedges(m, hs)
    ensures AreaSum(m, g, weighting, hs) == AreaSum(m, g, weighting, NonBorder(m, hs))
  {
    if hs != [] {
      var init, last := hs[..|hs| - 1], hs[|hs| - 1];
      BorderContributesNothing(m, g, weighting, init);
      var r := NonBorder(m, init);
      assert AreaSum(m, g, weighting, hs) == AreaSum(m, g, weighting, init) + Contribution(m, g, weighting, last);
      if m.halfedges[last].isBorder {
        assert Contribution(m, g, weighting, last) == 0.0;
        assert NonBorder(m, hs) == r;
      } else {
        assert NonBorder(m, hs) == r + [last];
        AreaSumSnoc(m, g, weighting, r, last);
      }
    }
  }

  lemma AreaSumSnoc(m: Mesh, g: Geometry, weighting: VertexArea, hs: seq<nat>, h: nat)
    requires TriangleMesh(m) && Embeds(m, g) && ValidHalfedges(m, hs) && h < |m.halfedges|
    ensures ValidHalfedges(m, hs + [h])
    ensures AreaSum(m, g, weighting, hs + [h]) == AreaSum(m, g, weighting, hs) + Contribution(m, g, weighting, h)
  {
    assert (hs + [h])[..|hs + [h]| - 1] == hs;
  }

  /** The sum of the areas of the faces of the half-edges hs. */
  function FaceAreaSum(m: Mesh, g: Geometry, hs: seq<nat>): real
    requires TriangleMesh(m) && Embeds(m, g) && ValidHalfedges(m, hs)
  {
    if hs == [] then 0.0
    else
      var h := hs[|hs| - 1];
      assert HalfEdgeWellFormed(m, h);
      FaceAreaSum(m, g, hs[..|hs| - 1]) +
        g.area(g.position[m.halfedges[h].source], g.position[m.halfedges[h].target], g.position[ThirdVertex(m, h)])
  }

  lemma {:induction false} BarycentricSumIsFaceAreaSum(m: Mesh, g: Geometry, hs: seq<nat>)
    requires TriangleMesh(m) && Embeds(m, g) && ValidHalfedges(m, hs)
    ensures AreaSum(m, g, Barycentric, NonBorder(m, hs)) == FaceAreaSum(m, g, NonBorder(m, hs))
  {
    if hs != [] {
      var init, last := hs[..|hs| - 1], hs[|hs| - 1];
      BarycentricSumIsFaceAreaSum(m, g, init);
      var r := NonBorder(m, init);
      if !m.halfedges[last].isBorder {
        assert (r + [last])[..|r + [last]| - 1] == r;
      }
    }
  }

  /** The barycentric area of a vertex is one third of the total area of its
      incident (non-border) faces. */
  lemma BarycentricIsThirdOfIncidentFaces(m: Mesh, g: Geometry, v: nat)
    requires TriangleMesh(m) && Embeds(m, g) && v < m.nv
    ensures ValidHalfedges(m, m.incoming[v])
    ensures VertexAreaOf(m, g, Barycentric, v) == FaceAreaSum(m, g, NonBorder(m, m.incoming[v])) / 3.0
  {
    IncomingValid(m, v);
    BorderContributesNothing(m, g, Barycentric, m.incoming[v]);
    BarycentricSumIsFaceAreaSum(m, g, m.incoming[v]);
  }

  /** Mixed Voronoi: a face obtuse at another corner gives a quarter of its
      area.  The test for an obtuse angle at the vertex comes first in the
      source, but a triangle has only one obtuse corner, so the order of the
      tests does not matter. */
  lemma MixedVoronoiObtuseElsewhere(g: Geometry, p1: Point, p2: Point, p3: Point)
    requires ObtuseAt(p3, p1, p2) || ObtuseAt(p1, p3, p2)
    ensures FaceShare(g, MixedVoronoi, p1, p2, p3) == g.area(p1, p2, p3) * 0.25
  {
    AtMostOneObtuse(p1, p2, p3);
    assert Dot(Minus(p1, p3), Minus(p2, p3)) == Dot(Minus(p2, p3), Minus(p1, p3));
  }

  /** Mixed Voronoi: a face obtuse at the vertex itself gives half its area. */
  lemma MixedVoronoiObtuseAtVertex(g: Geometry, p1: Point, p2: Point, p3: Point)
    requires ObtuseAt(p1, p2, p3)
    ensures FaceShare(g, MixedVoronoi, p1, p2, p3) == g.area(p1, p2, p3) * 0.5
  {
  }

  predicate NonObtuse(p1: Point, p2: Point, p3: Point) {
    !ObtuseAt(p3, p1, p2) && !ObtuseAt(p1, p2, p3) && !ObtuseAt(p2, p3, p1)
  }

  /** Pure Voronoi subtracts one circumcentric sub-area exactly when a
      corner other than the vertex is obtuse: the sub-area next to the
      obtuse corner is counted negatively. */
  lemma VoronoiObtuseElsewhere(g: Geometry, p1: Point, p2: Point, p3: Point)
    ensures var a1 := g.area(Midpoint(p2, p1), p2, g.circumcenter(p1, p2, p3));
            var a2 := g.area(Midpoint(p2, p3), g.circumcenter(p1, p2, p3), p2);
      && (ObtuseAt(p2, p1, p3) ==> FaceShare(g, Voronoi, p1, p2, p3) == a1 - a2)
      && (ObtuseAt(p2, p3, p1) ==> FaceShare(g, Voronoi, p1, p2, p3) == a2 - a1)
      && (!ObtuseAt(p2, p1, p3) && !ObtuseAt(p2, p3, p1) ==> FaceShare(g, Voronoi, p1, p2, p3) == a1 + a2)
  {
    AtMostOneObtuse(p1, p2, p3);
    assert Dot(Minus(p2, p1), Minus(p3, p1)) == Dot(Minus(p3, p1), Minus(p2, p1));
  }

  /** On a triangle with no obtuse corner mixed Voronoi and pure Voronoi
      agree. */
  lemma MixedAgreesWithVoronoiOnNonObtuse(g: Geometry, p1: Point, p2: Point, p3: Point)
    requires NonObtuse(p1, p2, p3)
    ensures FaceShare(g, MixedVoronoi, p1, p2, p3) == FaceShare(g, Voronoi, p1, p2, p3)
  {
    assert Dot(Minus(p2, p1), Minus(p3, p1)) == Dot(Minus(p3, p1), Minus(p2, p1));
    assert Dot(Minus(p1, p3), Minus(p2, p3)) == Dot(Minus(p2, p3), Minus(p1, p3));
  }

  /** For an area function that does not depend on the order of the corners,
      the mixed Voronoi shares of the three corners of an obtuse triangle sum
      to the triangle's area (one half at the obtuse corner, a quarter at
      each other corner). */
  lemma MixedVoronoiPartitionsObtuseFace(g: Geometry, p1: Point, p2: Point, p3: Point)
    requires g.area(p1, p2, p3) == g.area(p2, p3, p1) == g.area(p3, p1, p2)
    requires ObtuseAt(p1, p2, p3)
    ensures FaceShare(g, MixedVoronoi, p1, p2, p3)
          + FaceShare(g, MixedVoronoi, p2, p3, p1)
          + FaceShare(g, MixedVoronoi, p3, p1, p2) == g.area(p1, p2, p3)
  {
    MixedVoronoiObtuseElsewhere(g, p2, p3, p1);
    MixedVoronoiObtuseElsewhere(g, p3, p1, p2);
  }

  ghost predicate AllNonObtuse(m: Mesh, g: Geometry, hs: seq<nat>)
    requires TriangleMesh(m) && Embeds(m, g) && ValidHalfedges(m, hs)
  {
    forall k :: 0 <= k < |hs| ==>
      HalfEdgeWellFormed(m, hs[k]) &&
      NonObtuse(g.position[m.halfedges[hs[k]].source], g.position[m.halfedges[hs[k]].target],
                g.position[ThirdVertex(m, hs[k])])
  }

  /** A vertex whose incident faces have no obtuse corner gets the same area
      under mixed Voronoi and pure Voronoi. */
  lemma {:induction false} MixedVoronoiEqualsVoronoiWhenNonObtuse(m: Mesh, g: Geometry, hs: seq<nat>)
    requires TriangleMesh(m) && Embeds(m, g) && ValidHalfedges(m, hs)
    requires AllNonObtuse(m, g, hs)
    ensures AreaSum(m, g, MixedVoronoi, hs) == AreaSum(m, g, Voronoi, hs)
  {
    if hs != [] {
      var init, h := hs[..|hs| - 1], hs[|hs| - 1];
      assert AllNonObtuse(m, g, init) by {
        forall k | 0 <= k < |init| ensures HalfEdgeWellFormed(m, init[k]) {
          assert init[k] == hs[k];
        }
      }
      MixedVoronoiEqualsVoronoiWhenNonObtuse(m, g, init);
      assert HalfEdgeWellFormed(m, h);
      MixedAgreesWithVoronoiOnNonObtuse(g, g.position[m.halfedges[h].source],
        g.position[m.halfedges[h].target], g.position[ThirdVertex(m, h)]);
    }
  }

  /** Every face of a half-edge of hs that is not on the border is obtuse at
      the half-edge's target. */
  ghost predicate AllObtuseAtTarget(m: Mesh, g: Geometry, hs: seq<nat>)
    requires TriangleMesh(m) && Embeds(m, g) && ValidHalfedges(m, hs)
  {
    forall k :: 0 <= k < |hs| ==>
      HalfEdgeWellFormed(m, hs[k]) &&
      (!m.halfedges[hs[k]].isBorder ==>
         ObtuseAt(g.position[m.halfedges[hs[k]].source], g.position[m.halfedges[hs[k]].target],
                  g.position[ThirdVertex(m, hs[k])]))
  }

  /** Under mixed Voronoi, half-edges whose faces are all obtuse at their
      target add up to half the area of those faces. */
  lemma {:induction false} MixedVoronoiSumWhenObtuseAtTarget(m: Mesh, g: Geometry, hs: seq<nat>)
    requires TriangleMesh(m) && Embeds(m, g) && ValidHalfedges(m, hs)
    requires AllObtuseAtTarget(m, g, hs)
    ensures AreaSum(m, g, MixedVoronoi, hs) == FaceAreaSum(m, g, NonBorder(m, hs)) * 0.5
  {
    if hs != [] {
      var init, h := hs[..|hs| - 1], hs[|hs| - 1];
      assert AllObtuseAtTarget(m, g, init) by {
        forall k | 0 <= k < |init| ensures HalfEdgeWellFormed(m, init[k]) {
          assert init[k] == hs[k];
        }
      }
      MixedVoronoiSumWhenObtuseAtTarget(m, g, init);
      var r := NonBorder(m, init);
      assert HalfEdgeWellFormed(m, h);
      if !m.halfedges[h].isBorder {
        MixedVoronoiObtuseAtVertex(g, g.position[m.halfedges[h].source],
          g.position[m.halfedges[h].target], g.position[ThirdVertex(m, h)]);
        assert (r + [h])[..|r + [h]| - 1] == r;
      }
    }
  }

  /** A vertex at which every incident face is obtuse gets half the total
      area of its incident (non-border) faces under mixed Voronoi. */
  lemma MixedVoronoiIsHalfWhenObtuseAtVertex(m: Mesh, g: Geometry, v: nat)
    requires TriangleMesh(m) && Embeds(m, g) && v < m.nv
    requires ValidHalfedges(m, m.incoming[v]) && AllObtuseAtTarget(m, g, m.incoming[v])
    ensures VertexAreaOf(m, g, MixedVoronoi, v) == FaceAreaSum(m, g, NonBorder(m, m.incoming[v])) * 0.5
  {
    MixedVoronoiSumWhenObtuseAtTarget(m, g, m.incoming[v]);
  }

  // ---------------------------------------------------------------------
  // Adjacency and degree matrices

  /** The triplets `adjacency_matrix` emits for vertex i: one (i, j, 1) per
      half-edge from j into i. */
  function AdjacencyRow(m: Mesh, i: nat): (r: seq<Triplet>)
    requires TriangleMesh(m) && i < m.nv
    ensures |r| == |m.incoming[i]|
  {
    IncomingValid(m, i);
    seq(|m.incoming[i]|, k requires 0 <= k < |m.incoming[i]| =>
      Triplet(i, m.halfedges[m.incoming[i][k]].source, 1.0))
  }

  /** The adjacency triplets of the vertices below n, in vertex order. */
  function AdjacencyTriplets(m: Mesh, n: nat): seq<Triplet>
    requires TriangleMesh(m) && n <= m.nv
  {
    if n == 0 then [] else AdjacencyTriplets(m, n - 1) + AdjacencyRow(m, n - 1)
  }

  /** `adjacency_matrix`: the adjacency triplets and the degree triplets. */
  method AdjacencyMatrix(m: Mesh) returns (adj: seq<Triplet>, degree: seq<Triplet>)
    requires TriangleMesh(m)
    ensures adj == AdjacencyTriplets(m, m.nv)
    ensures |degree| == m.nv
    ensures forall i :: 0 <= i < m.nv ==> degree[i] == Triplet(i, i, |m.incoming[i]| as real)
  {
    adj, degree := [], [];
    var i := 0;
    while i < m.nv
      invariant 0 <= i <= m.nv && |degree| == i
      invariant adj == AdjacencyTriplets(m, i)
      invariant forall u :: 0 <= u < i ==> degree[u] == Triplet(u, u, |m.incoming[u]| as real)
    {
      IncomingValid(m, i);
      var hs := m.incoming[i];
      var d := 0;
      ghost var start := adj;
      while d < |hs|
        invariant 0 <= d <= |hs|
        invariant adj == start + AdjacencyRow(m, i)[..d]
      {
        var j := m.halfedges[hs[d]].source;
        assert AdjacencyRow(m, i)[..d + 1] == AdjacencyRow(m, i)[..d] + [Triplet(i, j, 1.0)];
        adj := adj + [Triplet(i, j, 1.0)];
        d := d + 1;
      }
      assert AdjacencyRow(m, i)[..d] == AdjacencyRow(m, i);
      degree := degree + [Triplet(i, i, d as real)];
      i := i + 1;
    }
  }

  /** What the sparse builder accumulates in row r: the sum of the values of
      the triplets of that row, duplicates included. */
  function RowTotal(ts: seq<Triplet>, r: nat): real {
    if ts == [] then 0.0
    else RowTotal(ts[..|ts| - 1], r) + (if ts[|ts| - 1].row == r then ts[|ts| - 1].value else 0.0)
  }

  lemma {:induction false} RowTotalAppend(a: seq<Triplet>, b: seq<Triplet>, r: nat)
    ensures RowTotal(a + b, r) == RowTotal(a, r) + RowTotal(b, r)
  {
    if b != [] {
      assert (a + b)[..|a + b| - 1] == a + b[..|b| - 1];
      RowTotalAppend(a, b[..|b| - 1], r);
    } else {
      assert a + b == a;
    }
  }

  lemma {:induction false} RowTotalOfRow(m: Mesh, i: nat, r: nat, d: nat)
    requires TriangleMesh(m) && i < m.nv && d <= |m.incoming[i]|
    ensures RowTotal(AdjacencyRow(m, i)[..d], r) == if r == i then d as real else 0.0
  {
    if d > 0 {
      var row := AdjacencyRow(m, i);
      assert row[..d][..d - 1] == row[..d - 1];
      RowTotalOfRow(m, i, r, d - 1);
    }
  }

  lemma {:induction false} RowTotalOfTriplets(m: Mesh, n: nat, r: nat)
    requires TriangleMesh(m) && n <= m.nv
    ensures RowTotal(AdjacencyTriplets(m, n), r) == if r < n then |m.incoming[r]| as real else 0.0
  {
    if n > 0 {
      RowTotalOfTriplets(m, n - 1, r);
      RowTotalAppend(AdjacencyTriplets(m, n - 1), AdjacencyRow(m, n - 1), r);
      RowTotalOfRow(m, n - 1, r, |m.incoming[n - 1]|);
      assert AdjacencyRow(m, n - 1)[..|m.incoming[n - 1]|] == AdjacencyRow(m, n - 1);
    }
  }

  /** The assembled adjacency matrix has row sums equal to the degrees: the
      row total of vertex i over all adjacency triplets is its number of
      incoming half-edges, which is the value of its degree triplet. */
  lemma AdjacencyRowSumIsDegree(m: Mesh, i: nat)
    requires TriangleMesh(m) && i < m.nv
    ensures RowTotal(AdjacencyTriplets(m, m.nv), i) == |m.incoming[i]| as real
  {
    RowTotalOfTriplets(m, m.nv, i);
  }

  /** The degree of a vertex is the number of half-edges of the mesh whose
      target it is. */
  lemma DegreeCountsIncomingHalfedges(m: Mesh, i: nat)
    requires TriangleMesh(m) && i < m.nv
    ensures |m.incoming[i]| == |set h | 0 <= h < |m.halfedges| && m.halfedges[h].target == i|
  {
    assert IncomingWellFormed(m, i);
    var hs := m.incoming[i];
    var s := set h | 0 <= h < |m.halfedges| && m.halfedges[h].target == i;
    forall h | h in s ensures h in hs {
    }
    assert s == set k | 0 <= k < |hs| :: hs[k];
    DistinctCard(hs);
  }

  lemma {:induction false} DistinctCard(hs: seq<nat>)
    requires forall a, b :: 0 <= a < b < |hs| ==> hs[a] != hs[b]
    ensures |set k | 0 <= k < |hs| :: hs[k]| == |hs|
  {
    if hs != [] {
      var init := hs[..|hs| - 1];
      DistinctCard(init);
      var s0 := set k | 0 <= k < |init| :: init[k];
      var s := set k | 0 <= k < |hs| :: hs[k];
      assert s == s0 + {hs[|hs| - 1]};
      assert hs[|hs| - 1] !in s0;
    }
  }
}
