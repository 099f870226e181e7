# Euclid geometry, OBJ and heat kernel signature core in Dafny

This project models three parts of the Euclid geometry-processing library and proves properties of the model.

**Triangle-mesh operators** (`TriMeshGeometry.cpp`):
- `vertex_area` and `vertex_areas`, with the barycentric, pure Voronoi and mixed Voronoi weightings.
- `adjacency_matrix`, which returns the adjacency and degree triplets.
- `cotangent_matrix`, the stiffness matrix of the cotangent Laplacian. Its triplets go into a set keyed on (row, column); the set also serves as a memo of the weight already computed for each edge.
- `mass_matrix`.

**OBJ reader and writer** (`ObjIO.cpp`):
- Both overloads of `read_obj`: vertex buffers only, and an indexed n-gon mesh.
- Both overloads of `write_obj`.
- The helper `read_vertex_properties`.

**Heat kernel signature** (`HKS.cpp`):
- `SqrtRcpr`.
- `build`, from a mesh and from precomputed eigen data.
- `compute`.

The mesh is a half-edge structure (`Mesh.dfy`, module `HalfEdgeMesh`):
- Vertices are 0 .. nv-1, enumerated in increasing order, and each vertex's index is the vertex itself.
- Each vertex keeps its incoming half-edges in circulation order.
- `TriangleMesh` states the half-edge relations every operator relies on; two vertices may be joined by more than one edge. `WellFormed` adds that they may not, which only the cotangent matrix needs.
- Points have real coordinates.
- The obtuse-angle test is CGAL's scalar-product test.
- Triangle area, circumcenter and cotangent are uninterpreted functions.

Where the source loops or updates state, the model does too. Such code becomes a `method` with loop invariants:
- the area and matrix assembly loops;
- the OBJ writers' stream output;
- the triple loop of `compute` and its row normalisation, on a two-dimensional array;
- the `HKS` object, whose fields `build` updates. It is a class.

Each method's result is tied to a specification function. The properties are proved about those functions:
- the set `cotangent_matrix` assembles is symmetric, and every row sums to zero;
- each edge's weight is evaluated exactly once;
- adjacency row sums equal the degrees;
- the barycentric area is a third of the incident face area; mixed Voronoi and Voronoi agree on non-obtuse faces;
- the matrix given to the eigensolver is symmetric;
- time samples stay within their range;
- normalised rows sum to one, and the signature is nonnegative;
- the writer's output read back gives the written buffers, for both overloads.

The Dafny modules follow the source files.

| C++ source file | Dafny files (modules) |
|---|---|
| `TriMeshGeometry.cpp` | `Mesh.dfy` (`HalfEdgeMesh`), `TriMeshGeometry.dfy` (`TriMeshGeometry`) and `CotangentLaplacian.dfy` (`CotangentLaplacian`) |
| `ObjIO.cpp` | `ObjText.dfy` (`ObjText`, `ObjStream`), `ObjRecords.dfy` (`ObjRecords`), `ObjReader.dfy` (`ObjReader`), `ObjWriter.dfy` (`ObjWriter`) and `ObjRoundTrip.dfy` (`ObjRoundTrip`) |
| `HKS.cpp` | `HKS.dfy` (`HeatKernelSignature`) |

The model follows the code where it differs from what the code was evidently meant to do:
- **`build` in `HKS.cpp`:** line 45 applies `SqrtRcpr` through `unaryExpr`. That call returns a new expression and discards it, so the mass matrix is unchanged. The operator handed to the eigensolver is therefore M·C·M, not the M^-1/2·C·M^-1/2 that the `SqrtRcpr` call at line 45 was evidently meant to produce. The model uses M·C·M. `NormalizedOperatorSymmetric` proves that the intended operator would be symmetric as well.
- **`cotangent_matrix`:** it does not skip border half-edges. Its weights are a function of whatever the half-edge structure gives at the border.
- **`compute`:** it divides every row by the row's sum. A mesh whose row sum is zero would give NaN in floating point. The model states the effect of the code as written.

## Model

| member | source | states |
|---|---|---|
| HalfEdgeMesh.OppositeReverses | include/Euclid/Geometry/src/TriMeshGeometry.cpp:410-411 | the opposite of the opposite is the half-edge itself, and the opposite runs between the same two vertices the other way round |
| HalfEdgeMesh.Midpoint | include/Euclid/Geometry/src/TriMeshGeometry.cpp:129-130 | the midpoint is equally far from both ends in every coordinate |
| HalfEdgeMesh.AtMostOneObtuse | include/Euclid/Geometry/src/TriMeshGeometry.cpp:150-156 | no two corners of a triangle are both obtuse, so the order of the obtuse tests cannot matter |
| TriMeshGeometry.VertexAreaAt | include/Euclid/Geometry/src/TriMeshGeometry.cpp:105-167 | the area is the sum, in circulation order, of the face shares over the incoming non-border half-edges; the barycentric weighting scales that sum by one third |
| TriMeshGeometry.VertexAreas | include/Euclid/Geometry/src/TriMeshGeometry.cpp:170-178 | one area per vertex, in vertex order, each the area of that vertex |
| TriMeshGeometry.MassMatrix | include/Euclid/Geometry/src/TriMeshGeometry.cpp:431-447 | one triplet per vertex, triplet k sitting at (k, k) and holding vertex k's area |
| TriMeshGeometry.NonBorder | include/Euclid/Geometry/src/TriMeshGeometry.cpp:113-114 | the half-edges kept are exactly the non-border ones among those given |
| TriMeshGeometry.BorderContributesNothing | include/Euclid/Geometry/src/TriMeshGeometry.cpp:113-120 | the accumulated area over all incoming half-edges equals the one over the non-border half-edges alone |
| TriMeshGeometry.BarycentricSumIsFaceAreaSum | include/Euclid/Geometry/src/TriMeshGeometry.cpp:111-120 | the barycentric accumulator is the sum of the areas of the incident faces |
| TriMeshGeometry.BarycentricIsThirdOfIncidentFaces | include/Euclid/Geometry/src/TriMeshGeometry.cpp:111-122 | the barycentric vertex area is one third of the total area of the incident faces |
| TriMeshGeometry.MixedVoronoiSumWhenObtuseAtTarget | include/Euclid/Geometry/src/TriMeshGeometry.cpp:145-152 | under mixed Voronoi, half-edges whose non-border faces are all obtuse at their target accumulate half the total area of those faces; border half-edges add nothing |
| TriMeshGeometry.MixedVoronoiIsHalfWhenObtuseAtVertex | include/Euclid/Geometry/src/TriMeshGeometry.cpp:145-152 | a vertex at which every incident face is obtuse gets, under mixed Voronoi, half the total area of its incident faces |
| TriMeshGeometry.MixedVoronoiObtuseElsewhere | include/Euclid/Geometry/src/TriMeshGeometry.cpp:153-156 | a face obtuse at another corner contributes a quarter of its area, whatever the order of the tests |
| TriMeshGeometry.VoronoiObtuseElsewhere | include/Euclid/Geometry/src/TriMeshGeometry.cpp:129-140 | pure Voronoi subtracts the circumcentric sub-area beside the obtuse corner when a corner other than the vertex is obtuse, and otherwise adds both sub-areas |
| TriMeshGeometry.MixedAgreesWithVoronoiOnNonObtuse | include/Euclid/Geometry/src/TriMeshGeometry.cpp:157-161 | on a triangle without an obtuse corner the mixed and pure Voronoi shares are equal |
| TriMeshGeometry.MixedVoronoiPartitionsObtuseFace | include/Euclid/Geometry/src/TriMeshGeometry.cpp:150-156 | the mixed Voronoi shares of the three corners of an obtuse triangle add up to its area (for an area independent of corner order) |
| TriMeshGeometry.MixedVoronoiEqualsVoronoiWhenNonObtuse | include/Euclid/Geometry/src/TriMeshGeometry.cpp:123-165 | a vertex whose faces have no obtuse corner gets the same area under mixed and pure Voronoi |
| TriMeshGeometry.AdjacencyMatrix | include/Euclid/Geometry/src/TriMeshGeometry.cpp:350-376 | the adjacency triplets are one (i, j, 1) per half-edge from j into i in vertex and circulation order, and the degree triplets are (i, i, d) with d the number of incoming half-edges of i |
| TriMeshGeometry.RowTotalOfTriplets | include/Euclid/Geometry/src/TriMeshGeometry.cpp:358-371 | the builder's total of row r over the triplets of the first n vertices is r's degree when r < n and zero otherwise |
| TriMeshGeometry.AdjacencyRowSumIsDegree | include/Euclid/Geometry/src/TriMeshGeometry.cpp:358-373 | every row of the assembled adjacency matrix sums to the vertex's degree triplet |
| TriMeshGeometry.DegreeCountsIncomingHalfedges | include/Euclid/Geometry/src/TriMeshGeometry.cpp:360-367 | the degree counted is the number of half-edges of the mesh whose target is the vertex |
| CotangentLaplacian.Emplace | include/Euclid/Geometry/src/TriMeshGeometry.cpp:386-396 | emplacing adds the position; a position already present keeps its first value, and a new one takes the value given |
| CotangentLaplacian.FirstVisitOfOpposite | include/Euclid/Geometry/src/TriMeshGeometry.cpp:398-404 | a half-edge and its opposite have the same first-visited half-edge, and exactly one of the two is it |
| CotangentLaplacian.EdgeWeightsSymmetric | include/Euclid/Geometry/src/TriMeshGeometry.cpp:404-417 | the weight stored for a half-edge equals the one stored for its opposite |
| CotangentLaplacian.ComputeWeight | include/Euclid/Geometry/src/TriMeshGeometry.cpp:410-416 | the weight is half the sum of the cotangents at the far corners of the two faces of the edge |
| CotangentLaplacian.Visit | include/Euclid/Geometry/src/TriMeshGeometry.cpp:402-419 | one visit keeps the inner loop's invariant: minus the weight at (i, j), an evaluation recorded exactly on a miss, the weight added to the row sum |
| CotangentLaplacian.VisitStep | include/Euclid/Geometry/src/TriMeshGeometry.cpp:404-406 | the mirrored entry (j, i) is present exactly when j was enumerated earlier; then it holds minus this edge's weight, and (i, j) is still free |
| CotangentLaplacian.MirrorFacts | include/Euclid/Geometry/src/TriMeshGeometry.cpp:404-417 | on a hit the mirrored value is minus this edge's weight; on a miss this half-edge is the edge's first visit |
| CotangentLaplacian.AssembleRow | include/Euclid/Geometry/src/TriMeshGeometry.cpp:401-420 | after the inner loop every incoming half-edge of i has its off-diagonal entry, the row sum is the sum of the row's weights, and the evaluations are the first visits among them |
| CotangentLaplacian.CloseRow | include/Euclid/Geometry/src/TriMeshGeometry.cpp:421 | the diagonal position is still free, and storing the row sum there finishes the rows up to i |
| CotangentLaplacian.FinishRow | include/Euclid/Geometry/src/TriMeshGeometry.cpp:421 | emplacing the row sum on the diagonal finishes row i, for the entries and for the evaluations |
| CotangentLaplacian.CotangentMatrix | include/Euclid/Geometry/src/TriMeshGeometry.cpp:379-428 | every half-edge into i from j has entry (i, j) = minus its edge's weight, every diagonal entry is the sum of its row's weights, there are no other entries, and the weight is evaluated at exactly the first-visited half-edge of each edge, once |
| CotangentLaplacian.EvaluatedAll | include/Euclid/Geometry/src/TriMeshGeometry.cpp:398-422 | once every vertex is finished, the evaluations are exactly the first visits, without repetition |
| CotangentLaplacian.KeysInRange | include/Euclid/Geometry/src/TriMeshGeometry.cpp:424-425 | every position lies inside the nv x nv matrix |
| CotangentLaplacian.Symmetric | include/Euclid/Geometry/src/TriMeshGeometry.cpp:404-417 | every position's mirror is present and holds exactly the same value |
| CotangentLaplacian.RowOffDiagonalPositions | include/Euclid/Geometry/src/TriMeshGeometry.cpp:401-417 | the off-diagonal positions of row i are exactly the sources of i's incoming half-edges, one distinct position per half-edge |
| CotangentLaplacian.OffDiagonalSumIsMinusWeights | include/Euclid/Geometry/src/TriMeshGeometry.cpp:405-419 | the off-diagonal entries of a row add up to minus the row's weight sum |
| CotangentLaplacian.RowSumsToZero | include/Euclid/Geometry/src/TriMeshGeometry.cpp:400-421 | every row of the cotangent matrix sums to zero |
| CotangentLaplacian.EvaluatedOncePerEdge | include/Euclid/Geometry/src/TriMeshGeometry.cpp:404-419 | of a half-edge and its opposite, exactly one is where the weight was evaluated |
| HeatKernelSignature.SqrtRcpr | include/Euclid/Analysis/src/HKS.cpp:22 | zero maps to zero; any other value maps to the reciprocal of its square root |
| HeatKernelSignature.SqrtRcprIsInverseSqrt | include/Euclid/Analysis/src/HKS.cpp:22 | on a positive value the result is positive and its square times the value is one |
| HeatKernelSignature.Sandwich | include/Euclid/Analysis/src/HKS.cpp:46 | M·A·M with M diagonal keeps A's positions |
| HeatKernelSignature.SandwichSymmetric | include/Euclid/Analysis/src/HKS.cpp:46 | D·A·D is symmetric when A is |
| HeatKernelSignature.SandwichZeroRow | include/Euclid/Analysis/src/HKS.cpp:46 | a zero on D's diagonal empties that row and column of D·A·D |
| HeatKernelSignature.OperatorSymmetric | include/Euclid/Analysis/src/HKS.cpp:43-46 | the cotangent matrix lies in the vertex square, and M·C·M is symmetric for any areas |
| HeatKernelSignature.NormalizedOperatorSymmetric | include/Euclid/Analysis/src/HKS.cpp:43-46 | the operator S·C·S with S = SqrtRcpr(M), which line 45 was evidently meant to produce, is symmetric whenever C is |
| HeatKernelSignature.NormalizedOperatorZeroRow | include/Euclid/Analysis/src/HKS.cpp:45-46 | in S·C·S, a vertex of zero area has only zeros in its row and its column, because SqrtRcpr maps zero to zero |
| HeatKernelSignature.Clamp | include/Euclid/Analysis/src/HKS.cpp:32-40 | the number of eigenpairs asked for is the request, or nv when the request exceeds it |
| HeatKernelSignature.SubspaceSize | include/Euclid/Analysis/src/HKS.cpp:49 | the subspace size is the smaller of 2k + 1 and nv |
| HeatKernelSignature.SubspaceExceedsRequest | include/Euclid/Analysis/src/HKS.cpp:32-49 | the subspace is larger than k exactly when the request was below nv; otherwise it is exactly nv |
| HeatKernelSignature.ScaleRows | include/Euclid/Analysis/src/HKS.cpp:75 | M times the eigenvectors keeps their shape |
| HeatKernelSignature.HKS.Build | include/Euclid/Analysis/src/HKS.cpp:28-79 | k is clamped with a warning, and M·C·M is decomposed with subspace min(2k + 1, nv). A failed status raises and leaves the fields unchanged. Otherwise there is a warning when fewer than k pairs converged, and the fields become the mesh, the eigenvalues and M times the eigenvectors |
| HeatKernelSignature.HKS.BuildFrom | include/Euclid/Analysis/src/HKS.cpp:82-89 | the fields take the mesh and the eigen data given |
| HeatKernelSignature.HKS.Compute | include/Euclid/Analysis/src/HKS.cpp:93-130 | it raises exactly when both ends are positive and out of order. Otherwise cell (i, v) is the heat sum of v at sample i of the range, divided by the row's sum |
| HeatKernelSignature.HKS.Fill | include/Euclid/Analysis/src/HKS.cpp:113-128 | every cell (i, v) holds the unnormalised heat sum of vertex v at time sample i |
| HeatKernelSignature.HeatAt | include/Euclid/Analysis/src/HKS.cpp:119-125 | the accumulated value is the sum over the eigenpairs, in order, of exp(-λ t)·φ² |
| HeatKernelSignature.RowSums | include/Euclid/Analysis/src/HKS.cpp:129 | the sums of every row, taken before any cell is divided |
| HeatKernelSignature.NormaliseRows | include/Euclid/Analysis/src/HKS.cpp:129 | every cell is divided by the sum its row had before normalisation |
| HeatKernelSignature.SampleAt | include/Euclid/Analysis/src/HKS.cpp:108-118 | the exponential of log(tmin) + i·step is time sample i |
| HeatKernelSignature.TotalDivided | include/Euclid/Analysis/src/HKS.cpp:129 | a row divided by s sums to the row's sum divided by s |
| HeatKernelSignature.NormalizedRowSumsToOne | include/Euclid/Analysis/src/HKS.cpp:129 | a row with a nonzero sum sums to one after normalisation |
| HeatKernelSignature.HeatSumNonnegative | include/Euclid/Analysis/src/HKS.cpp:119-125 | a heat sum is nonnegative |
| HeatKernelSignature.SignatureNonnegative | include/Euclid/Analysis/src/HKS.cpp:115-129 | every cell of the signature is nonnegative, before and after normalisation |
| HeatKernelSignature.SamplesWithinRange | include/Euclid/Analysis/src/HKS.cpp:108-118 | with tmin < tmax every sample lies in [tmin, tmax), and the first is tmin |
| HeatKernelSignature.DerivedRangeOrdered | include/Euclid/Analysis/src/HKS.cpp:103-107 | with ascending eigenvalues, the second positive and below the third, the derived range is positive and not empty |
| ObjText.SkipSpace | include/Euclid/IO/src/ObjIO.cpp:40 | what is left is a suffix of the text, and it does not start with white space |
| ObjText.SplitWord | include/Euclid/IO/src/ObjIO.cpp:40 | the text is the word followed by the rest; the word has no white space, and the rest is empty or starts with white space |
| ObjText.FieldsOfJoin | include/Euclid/IO/src/ObjIO.cpp:95 | splitting at the delimiter undoes joining with it when no field holds it |
| ObjText.StoiShowInt | include/Euclid/IO/src/ObjIO.cpp:97 | `stoi` reads back the integer the stream printed |
| ObjStream.ReadWord | include/Euclid/IO/src/ObjIO.cpp:40 | a read at the end delivers nothing; any other read consumes text, and finding no word sets the end-of-file flag |
| ObjStream.GetLine | include/Euclid/IO/src/ObjIO.cpp:52 | `getline` consumes text, and delivers nothing at the end |
| ObjReader.ReadValues | include/Euclid/IO/src/ObjIO.cpp:20-24 | exactly n values are read |
| ObjReader.ReadVertexProperties | include/Euclid/IO/src/ObjIO.cpp:16-25 | the buffer gains the n values read, in order, after its old contents |
| ObjReader.VertexRecord | include/Euclid/IO/src/ObjIO.cpp:41-49 | the buffer the specifier names grows by 3, 2 or 3 values, the others keep their contents, and each buffer is still there or not |
| ObjReader.ReadVertexRecord | include/Euclid/IO/src/ObjIO.cpp:41-49 | the v, vt and vn branches append the values they read |
| ObjReader.ReadAllAppends | include/Euclid/IO/src/ObjIO.cpp:38-54 | reading only appends to the caller's buffers and never adds or drops one |
| ObjReader.ReadObj | include/Euclid/IO/src/ObjIO.cpp:29-55 | the first `read_obj` reads records until the end of the file, a vertex record or a skipped line at a time |
| ObjReader.StoreIndex | include/Euclid/IO/src/ObjIO.cpp:97 | an index is stored, less one, exactly when `stoi` accepts the part |
| ObjReader.ParseCorner | include/Euclid/IO/src/ObjIO.cpp:95-107 | a corner's parts fill the position, texture and normal indices as far as there are parts and buffers. More than three parts raises after the others are stored, and a part that is not a number raises |
| ObjReader.ReadCorner | include/Euclid/IO/src/ObjIO.cpp:94-107 | the loop body for one corner does what `ParseCorner` describes |
| ObjReader.ParseCorners | include/Euclid/IO/src/ObjIO.cpp:94-108 | corners are stored in order up to the first error, and the vertex buffers do not change |
| ObjReader.ParseFace | include/Euclid/IO/src/ObjIO.cpp:85-109 | a face of a corner count other than n raises before anything is stored, a count of n stores its corners |
| ObjReader.ReadFace | include/Euclid/IO/src/ObjIO.cpp:85-109 | the face branch does what `ParseFace` describes |
| ObjReader.IndexedDispatch | include/Euclid/IO/src/ObjIO.cpp:72-113 | only a face record changes the index buffers or raises; comments and unknown lines are skipped |
| ObjReader.ReadIndexedRecord | include/Euclid/IO/src/ObjIO.cpp:72-113 | the branches of the indexed loop do what `IndexedDispatch` describes |
| ObjReader.ReadIndexedObj | include/Euclid/IO/src/ObjIO.cpp:57-115 | the indexed `read_obj` reads records until the end of the file or the first error |
| ObjRecords.RecordsCount | include/Euclid/IO/src/ObjIO.cpp:138-141 | as many lines are written as whole groups fit in the buffer |
| ObjRecords.RecordsLine | include/Euclid/IO/src/ObjIO.cpp:138-141 | line i holds values k·i to k·i + k |
| ObjRecords.VertexLines | include/Euclid/IO/src/ObjIO.cpp:138-153 | one position line per position triple, ahead of any texture or normal lines |
| ObjRecords.CornerParts | include/Euclid/IO/src/ObjIO.cpp:210-221 | the corner text is its one to three parts joined by slashes; only normals give p//n |
| ObjRecords.CornerPartsChars | include/Euclid/IO/src/ObjIO.cpp:210-221 | no corner part holds a slash, a space or a line break |
| ObjRecords.FaceLines | include/Euclid/IO/src/ObjIO.cpp:207-225 | there are |pindices| / n face lines |
| ObjWriter.WriteRecords | include/Euclid/IO/src/ObjIO.cpp:138-141 | the stream gains one line per whole group of values, in order |
| ObjWriter.WriteVertices | include/Euclid/IO/src/ObjIO.cpp:138-153 | the stream gains the position lines, then the texture lines if given, then the normal lines if given |
| ObjWriter.WriteObj | include/Euclid/IO/src/ObjIO.cpp:117-154 | it raises, with the file left empty, exactly when a buffer's size is not a whole number of groups; otherwise the file is the header and the vertex lines |
| ObjWriter.WriteCorner | include/Euclid/IO/src/ObjIO.cpp:210-221 | the corner text is p, p/t, p//n or p/t/n, one-based |
| ObjWriter.WriteFace | include/Euclid/IO/src/ObjIO.cpp:208-224 | a face line is "f " and the corner texts separated by single spaces |
| ObjWriter.WriteFaces | include/Euclid/IO/src/ObjIO.cpp:207-225 | the stream gains one line per face, in order |
| ObjWriter.WriteIndexedObj | include/Euclid/IO/src/ObjIO.cpp:156-226 | the checks run in order: sizes, index compatibility, whole faces. The error raised is the first check that fails, with the file left empty; otherwise the file is the header, the vertex lines and the face lines |
| ObjRoundTrip.SkipLine | include/Euclid/IO/src/ObjIO.cpp:50-53 | a line whose first word is not a vertex specifier the reader collects (a comment, a face, a `vt` or `vn` line without its buffer, any other word) is skipped to its end without a change to the buffers |
| ObjRoundTrip.HeaderThen | include/Euclid/IO/src/ObjIO.cpp:50-53 | the reader skips the header line the writer emits |
| ObjRoundTrip.ReadSection | include/Euclid/IO/src/ObjIO.cpp:38-49 | reading the lines of a whole number of vertex records appends their values to the buffer they name |
| ObjRoundTrip.VertexSection | include/Euclid/IO/src/ObjIO.cpp:38-54 | reading the vertex lines the writer emits appends each written buffer to the reader's buffer of that kind |
| ObjRoundTrip.WriteThenRead | include/Euclid/IO/src/ObjIO.cpp:29-55 | the first `read_obj` on the first `write_obj`'s file appends the written buffers to the reader's |
| ObjRoundTrip.RoundTrip | include/Euclid/IO/src/ObjIO.cpp:117-154 | reading the written file into empty buffers of the same kinds gives back exactly the buffers written |
| ObjRoundTrip.ReadCornerOf | include/Euclid/IO/src/ObjIO.cpp:94-104 | reading a written corner stores back its position index, and its texture and normal indices where the reader has buffers for them and the corner carries them; a texture index buffer is allowed unless the corner is p//n |
| ObjRoundTrip.ReadCornerWithoutTexture | include/Euclid/IO/src/ObjIO.cpp:97-100 | a corner written as p//n, read by a reader that has a texture index buffer, stores its position index and then raises `invalid_argument` on the empty texture part |
| ObjRoundTrip.ReadFaces | include/Euclid/IO/src/ObjIO.cpp:85-109 | reading the written face lines appends every written corner, raising nothing, for any reader except one with a texture index buffer on p//n faces |
| ObjRoundTrip.FacesSection | include/Euclid/IO/src/ObjIO.cpp:207-225 | the face lines the writer emits read back as all the corners of the mesh |
| ObjRoundTrip.WriteThenReadIndexed | include/Euclid/IO/src/ObjIO.cpp:57-115 | the indexed `read_obj` on the indexed `write_obj`'s file appends the written buffers and indices without raising, for any reader except one with a texture index buffer on p//n faces |
| ObjRoundTrip.RoundTripIndexed | include/Euclid/IO/src/ObjIO.cpp:156-226 | read into empty buffers of the same kinds, the written n-gon mesh comes back exactly, for the forms p, p/t, p//n and p/t/n |

## Left out

- I/O: opening files (`check_fstream`) and locale handling are not modelled. A file is its text, a read is a function of a stream state (the unread text and the end-of-file flag), and a written file is the text written.
- Values (`FT`) are kept as the words the stream prints and reads. Floating-point formatting and parsing, with their rounding, are not modelled.
- ObjRoundTrip.RoundTrip: the round trips require every written value to be a single word. They also require a written buffer of each kind the reader supplies. This is the condition under which the round trip of the written words holds. At the stream's default precision the source writes six significant digits of each `FT`, so reading the file back need not give the values themselves.
- `_impl::split` lives in IOHelpers.h, which is not part of this model. It is defined here as the fields between delimiters, keeping empty fields, after the offset's characters are dropped.
- ObjText.Stoi: `std::stoi`'s `out_of_range` for values outside `int` is not modelled; integers are unbounded.
- Indices are unbounded integers, and the writer's `+ 1` cannot wrap.
- A value extraction that fails in the middle of a file would leave the C++ stream failed without end-of-file and loop for ever. In the model only a read at the end of the text fails, and it reaches the end of the file. A word that would not parse as an `FT` (`v 1 2 abc`, or a `v` line cut short before the next one) is read as a value, where the source would loop for ever. The OBJ readers' loops therefore always terminate. ObjReader.ReadValues pushes the empty word for a value read at the end of the file, where the source pushes an uninitialised `FT`.
- HeatKernelSignature.HKS.Build: Spectra's shift-invert eigensolver is a parameter. The `EASSERT`s on its result (lines 62-63, 74, 77-78) are stated as requirements on it. Spectra is not part of this model.
- HeatKernelSignature.HKS.Build: `EWARNING`'s output is not modelled; the warnings are returned as values naming their numbers. The exception's `what()` text is in `ObjRecords.Message` for the OBJ errors only.
- HeatKernelSignature.HKS.Build: the mesh-only `mass_matrix` call uses the default weighting declared in TriMeshGeometry.h, which is not part of this model. The weighting is a parameter.
- `exp`, `log` and `sqrt` are parameters; the lemmas that need them assume the usual properties, stated as predicates.
- HeatKernelSignature.HKS.Compute: when the range is derived from the eigenvalues, it requires the divisors to be nonzero. Floating-point infinities and NaN are not modelled.
- HeatKernelSignature.NormaliseRows: a row whose sum is zero is left unchanged by HeatKernelSignature.HKS.Compute, where the source would produce NaN.
- HeatKernelSignature.HKS.Compute: with `tscales` zero the step is set to zero, where the source divides by zero. The table is then empty either way.
- ObjRoundTrip.RoundTripIndexed: the indexed round trip reads into buffers of the writer's kinds. The lemmas it rests on (ObjRoundTrip.ReadCornerOf, ObjRoundTrip.ReadFaces, ObjRoundTrip.FacesSection, ObjRoundTrip.WriteThenReadIndexed) accept any reader, except one whose texture index buffer meets faces written as p//n, that is, with normal indices but no texture indices. ObjRoundTrip.ReadCornerWithoutTexture shows why: with that buffer, a p//n corner raises.
- HeatKernelSignature.HKS.Compute: the `float` parameters `tmin` and `tmax`, and every other floating-point type, become reals.
- CotangentLaplacian.CotangentMatrix: the structural facts are proved for meshes without multi-edges (`HalfEdgeMesh.WellFormed`), and HeatKernelSignature.HKS.Build, which builds the cotangent matrix, requires the same, because the memo keyed on (row, column) merges the weights of parallel edges. The areas, the mass matrix and the adjacency matrix need only `HalfEdgeMesh.TriangleMesh`, which allows multi-edges. Border half-edges get weights like the others, as the source does.
- HeatKernelSignature.HKS.BuildFrom: the source's `reset` (lines 87-88) keeps the caller's eigenvalue and eigenfunction objects by pointer, so later changes the caller makes to them are seen by the `HKS` object. The model copies their values. The pointer type and its ownership are declared in HKS.h, which is not part of this model.
- The sparse matrices are the triplet lists or maps handed to `setFromTriplets`. Compression and storage order are left out.
- The unordered set's iteration order is not modelled: the matrix does not depend on it, because every position is stored once.
