/** The half-edge surface that the geometry operators traverse, and the
    geometric primitives they evaluate on it.

    Vertices are the descriptors 0 .. nv-1, enumerated in increasing order,
    and the vertex index of a vertex is the vertex itself.  A half-edge
    records its source and target vertex, the next half-edge of its face,
    its opposite half-edge and whether it is a border half-edge (one with no
    incident face).  `incoming[v]` is the circulation order of the half-edges
    whose target is v, as `halfedges_around_target` delivers it. */
module HalfEdgeMesh {

  datatype HalfEdge = HalfEdge(source: nat, target: nat, next: nat, opposite: nat, isBorder: bool)

  datatype Mesh = Mesh(nv: nat, halfedges: seq<HalfEdge>, incoming: seq<seq<nat>>)

  /** The two end vertices of half-edge h, source first. */
  function Ends(m: Mesh, h: nat): (nat, nat)
    requires h < |m.halfedges|
  {
    (m.halfedges[h].source, m.halfedges[h].target)
  }

  /** The half-edge relation of a triangle mesh: every half-edge has an
      opposite running the other way and a next one leaving its target, and
      every vertex lists its incoming half-edges.  Two vertices may be
      joined by more than one edge. */
  ghost predicate TriangleMesh(m: Mesh) {
    && |m.incoming| == m.nv
    && (forall h {:trigger HalfEdgeWellFormed(m, h)} :: 0 <= h < |m.halfedges| ==> HalfEdgeWellFormed(m, h))
    && (forall v {:trigger IncomingWellFormed(m, v)} :: 0 <= v < m.nv ==> IncomingWellFormed(m, v))
  }

  /** A triangle mesh with at most one half-edge from a vertex to another
      one (no multi-edges), which the cotangent matrix's memo relies on. */
  ghost predicate WellFormed(m: Mesh) {
    TriangleMesh(m) && NoMultiEdges(m)
  }

  ghost predicate NoMultiEdges(m: Mesh) {
    forall h, h' {:trigger Ends(m, h), Ends(m, h')} ::
      0 <= h < |m.halfedges| && 0 <= h' < |m.halfedges| && Ends(m, h) == Ends(m, h') ==> h == h'
  }

  ghost predicate HalfEdgeWellFormed(m: Mesh, h: nat)
    requires h < |m.halfedges|
  {
    var he := m.halfedges[h];
    && he.source < m.nv && he.target < m.nv && he.source != he.target
    && he.next < |m.halfedges| && he.opposite < |m.halfedges|
    && he.opposite != h
    && m.halfedges[he.opposite].opposite == h
    && m.halfedges[he.opposite].target == he.source
    && m.halfedges[he.next].source == he.target
  }

  /** `incoming[v]` lists every half-edge into v exactly once, and nothing else. */
  ghost predicate IncomingWellFormed(m: Mesh, v: nat)
    requires v < |m.incoming|
  {
    var hs := m.incoming[v];
    && (forall k :: 0 <= k < |hs| ==> hs[k] < |m.halfedges| && m.halfedges[hs[k]].target == v)
    && (forall a, b :: 0 <= a < b < |hs| ==> hs[a] != hs[b])
    && (forall h {:trigger h in hs} :: 0 <= h < |m.halfedges| && m.halfedges[h].target == v ==> h in hs)
  }

  /** Following `opposite` twice returns to the start, and the opposite
      half-edge runs between the same two vertices the other way round. */
  lemma OppositeReverses(m: Mesh, h: nat)
    requires TriangleMesh(m) && h < |m.halfedges|
    ensures var o := m.halfedges[h].opposite;
      && o < |m.halfedges| && o != h
      && m.halfedges[o].opposite == h
      && m.halfedges[o].source == m.halfedges[h].target
      && m.halfedges[o].target == m.halfedges[h].source
  {
    var o := m.halfedges[h].opposite;
    assert HalfEdgeWellFormed(m, h);
    assert HalfEdgeWellFormed(m, o);
  }

  /** The vertex that follows the target of h around h's face. */
  function ThirdVertex(m: Mesh, h: nat): (w: nat)
    requires TriangleMesh(m) && h < |m.halfedges|
    ensures w < m.nv
  {
    assert HalfEdgeWellFormed(m, h);
    assert HalfEdgeWellFormed(m, m.halfedges[h].next);
    m.halfedges[m.halfedges[h].next].target
  }

  /** A point of the surface's embedding. */
  datatype Point = Point(x: real, y: real, z: real)

  function Midpoint(p: Point, q: Point): (r: Point)
    ensures r.x - p.x == q.x - r.x && r.y - p.y == q.y - r.y && r.z - p.z == q.z - r.z
  {
    Point((p.x + q.x) / 2.0, (p.y + q.y) / 2.0, (p.z + q.z) / 2.0)
  }

  function Dot(p: Point, q: Point): real {
    p.x * q.x + p.y * q.y + p.z * q.z
  }

  function Minus(p: Point, q: Point): Point {
    Point(p.x - q.x, p.y - q.y, p.z - q.z)
  }

  /** CGAL's `angle(p, q, r) == OBTUSE`: the angle at q is obtuse, i.e. the
      scalar product of p - q and r - q is negative. */
  predicate ObtuseAt(p: Point, q: Point, r: Point) {
    Dot(Minus(p, q), Minus(r, q)) < 0.0
  }

  /** A triangle has at most one obtuse corner: the scalar products at two
      corners add up to the squared length of the side between them. */
  lemma AtMostOneObtuse(p1: Point, p2: Point, p3: Point)
    ensures !(ObtuseAt(p3, p1, p2) && ObtuseAt(p1, p2, p3))
    ensures !(ObtuseAt(p1, p2, p3) && ObtuseAt(p2, p3, p1))
    ensures !(ObtuseAt(p2, p3, p1) && ObtuseAt(p3, p1, p2))
  {
    SumOfCornerProducts(p1, p2, p3);
    SumOfCornerProducts(p2, p3, p1);
    SumOfCornerProducts(p3, p1, p2);
  }

  lemma SumOfCornerProducts(a: Point, b: Point, c: Point)
    ensures Dot(Minus(c, a), Minus(b, a)) + Dot(Minus(a, b), Minus(c, b)) == Dot(Minus(a, b), Minus(a, b)) >= 0.0
  {
    var u, v, w := Minus(a, b), Minus(c, b), Minus(c, a);
    assert w == Minus(v, u);
    assert Dot(u, u) == u.x * u.x + u.y * u.y + u.z * u.z;
    assert u.x * u.x >= 0.0 && u.y * u.y >= 0.0 && u.z * u.z >= 0.0;
  }

  /** The geometric primitives the operators evaluate, left uninterpreted:
      the positions of the vertices, the triangle area, the circumcenter and
      the cotangent of the angle at the middle point. */
  datatype Geometry = Geometry(
    position: seq<Point>,
    area: (Point, Point, Point) -> real,
    circumcenter: (Point, Point, Point) -> Point,
    cotangent: (Point, Point, Point) -> real)

  ghost predicate Embeds(m: Mesh, g: Geometry) {
    |g.position| == m.nv
  }
}
