/** The data an OBJ file carries between the writer and the reader, the
    size checks the writer makes, and the text of every line it emits.

    Values (`FT`) are kept as the text the stream prints for them and reads
    back, and indices (`IT`) as integers.  A buffer passed by pointer is an
    `Option`: `None` is the null pointer. */
module ObjRecords {
  import opened ObjText

  /** A value as it stands in the file. */
  type Token = string

  /** The exceptions the reader and the writer raise. */
  datatype ObjError =
    | SizeNotValid
    | IndicesIncompatible
    | InvalidPolygonInput(n: nat)
    | NotPolygon(n: nat)
    | BadObjFile
    | InvalidIndex

  /** The `what()` text of each exception; `InvalidIndex` is the
      `std::invalid_argument` that `std::stoi` throws. */
  function Message(e: ObjError): string {
    match e
    case SizeNotValid => "Size of input is not valid."
    case IndicesIncompatible => "The input indices are not compatible in size"
    case InvalidPolygonInput(n) => "The input is not a valid " + ShowNat(n) + "-polygon"
    case NotPolygon(n) => "Input file contains a face that is not a " + ShowNat(n) + "-polygon"
    case BadObjFile => "Bad obj file"
    case InvalidIndex => "stoi"
  }

  /** The vertex buffers of the first `read_obj`/`write_obj` overload. */
  datatype Buffers = Buffers(positions: seq<Token>, texcoords: Option<seq<Token>>, normals: Option<seq<Token>>)

  /** The buffers of the indexed overloads. */
  datatype IndexedBuffers = IndexedBuffers(
    positions: seq<Token>, pindices: seq<int>,
    texcoords: Option<seq<Token>>, tindices: Option<seq<int>>,
    normals: Option<seq<Token>>, nindices: Option<seq<int>>)

  function VertexBuffers(w: IndexedBuffers): Buffers {
    Buffers(w.positions, w.texcoords, w.normals)
  }

  /** Whole triples of positions and normals, whole pairs of texture
      coordinates. */
  predicate SizesValid(b: Buffers) {
    && |b.positions| % 3 == 0
    && (b.texcoords.Some? ==> |b.texcoords.value| % 2 == 0)
    && (b.normals.Some? ==> |b.normals.value| % 3 == 0)
  }

  /** Every supplied index buffer is as long as the position indices. */
  predicate IndicesCompatible(w: IndexedBuffers) {
    && (w.tindices.Some? ==> |w.tindices.value| == |w.pindices|)
    && (w.nindices.Some? ==> |w.nindices.value| == |w.pindices|)
  }

  /** Face corners carry a texture index. */
  predicate TexturedFaces(w: IndexedBuffers) {
    w.texcoords.Some? && w.tindices.Some?
  }

  /** Face corners carry a normal index. */
  predicate NormalFaces(w: IndexedBuffers) {
    w.normals.Some? && w.nindices.Some?
  }

  /** The header line: a comment naming the library and its home page.  The
      text is spelled in short pieces so that the verifier can see what it is
      made of. */
  const Header: string := "#" + HeaderComment
  const HeaderComment: string :=
    " Generated" + " by" + " Euclid(" + "https://" + "github.com/" + "unclejimbo/" + "Euclid)"

  /** The values, each after a space. */
  function Spaced(vs: seq<Token>): string {
    if vs == [] then [] else Spaced(vs[..|vs| - 1]) + " " + vs[|vs| - 1]
  }

  /** One line: the tag followed by the values. */
  function Record(tag: string, vs: seq<Token>): string {
    tag + Spaced(vs)
  }

  /** One line per k consecutive values, in order; values left over after
      the last whole group of k are not written. */
  function Records(tag: string, k: nat, vs: seq<Token>): seq<string>
    requires k > 0
    decreases |vs|
  {
    if |vs| < k then [] else [Record(tag, vs[..k])] + Records(tag, k, vs[k..])
  }

  /** As many lines as whole groups of k fit in the values. */
  lemma {:induction false} RecordsCount(tag: string, k: nat, vs: seq<Token>)
    requires k > 0
    ensures k * |Records(tag, k, vs)| <= |vs| < k * |Records(tag, k, vs)| + k
    decreases |vs|
  {
    if |vs| >= k {
      RecordsCount(tag, k, vs[k..]);
      MulSucc(k, |Records(tag, k, vs[k..])|);
    }
  }

  /** Line i holds the values k * i to k * i + k. */
  lemma {:induction false} RecordsLine(tag: string, k: nat, vs: seq<Token>, i: nat)
    requires k > 0 && i < |Records(tag, k, vs)|
    ensures k * i + k <= |vs| && Records(tag, k, vs)[i] == Record(tag, vs[k * i..k * i + k])
    decreases |vs|
  {
    if i > 0 {
      RecordsLine(tag, k, vs[k..], i - 1);
      MulSucc(k, i - 1);
      assert vs[k..][k * (i - 1)..k * (i - 1) + k] == vs[k * i..k * i + k];
    }
  }

  lemma MulSucc(k: int, i: int)
    ensures k * (i + 1) == k * i + k
  {
  }

  /** n values that are a whole number of groups of k hold exactly c of
      them when c whole groups fit and c + 1 do not. */
  lemma WholeGroups(k: nat, n: nat, c: nat)
    requires k > 0 && k * c <= n < k * c + k && n % k == 0
    ensures c == n / k && k * c == n
  {
    var q := n / k;
    assert n == k * q;
    if q > c {
      MulMono(k, c + 1, q);
      MulSucc(k, c);
    } else if q < c {
      MulMono(k, q + 1, c);
      MulSucc(k, q);
    }
  }

  /** Before the last of c groups of k, the next group fits. */
  lemma NextGroup(k: nat, g: nat, c: nat, i: nat, j: nat, m: nat)
    requires k > 0 && i == k * g && k * c == m && i < m && j == i + k
    ensures j <= m && j == k * (g + 1) && g + 1 <= c
  {
    if c < g + 1 {
      MulMono(k, c, g);
    }
    MulMono(k, g + 1, c);
    MulSucc(k, g);
  }

  lemma MulMono(k: nat, a: nat, b: nat)
    requires a <= b
    ensures k * a <= k * b
  {
  }

  /** The vertex lines: positions, then texture coordinates, then normals. */
  function VertexLines(b: Buffers): (r: seq<string>)
    requires SizesValid(b)
    ensures |r| == |b.positions| / 3
                 + (if b.texcoords.Some? then |b.texcoords.value| / 2 else 0)
                 + (if b.normals.Some? then |b.normals.value| / 3 else 0)
  {
    VertexCounts(b);
    Records("v", 3, b.positions)
    + (if b.texcoords.Some? then Records("vt", 2, b.texcoords.value) else [])
    + (if b.normals.Some? then Records("vn", 3, b.normals.value) else [])
  }

  lemma VertexCounts(b: Buffers)
    requires SizesValid(b)
    ensures |Records("v", 3, b.positions)| == |b.positions| / 3
    ensures b.texcoords.Some? ==> |Records("vt", 2, b.texcoords.value)| == |b.texcoords.value| / 2
    ensures b.normals.Some? ==> |Records("vn", 3, b.normals.value)| == |b.normals.value| / 3
  {
    RecordsCount("v", 3, b.positions);
    WholeGroups(3, |b.positions|, |Records("v", 3, b.positions)|);
    if b.texcoords.Some? {
      RecordsCount("vt", 2, b.texcoords.value);
      WholeGroups(2, |b.texcoords.value|, |Records("vt", 2, b.texcoords.value)|);
    }
    if b.normals.Some? {
      RecordsCount("vn", 3, b.normals.value);
      WholeGroups(3, |b.normals.value|, |Records("vn", 3, b.normals.value)|);
    }
  }

  /** The text of face corner c: its position index, then its texture and
      normal indices, each one-based. */
  function CornerToken(w: IndexedBuffers, c: nat): string
    requires IndicesCompatible(w) && c < |w.pindices|
  {
    var p := ShowInt(w.pindices[c] + 1);
    if TexturedFaces(w) then
      if NormalFaces(w) then p + "/" + ShowInt(w.tindices.value[c] + 1) + "/" + ShowInt(w.nindices.value[c] + 1)
      else p + "/" + ShowInt(w.tindices.value[c] + 1)
    else if NormalFaces(w) then p + "//" + ShowInt(w.nindices.value[c] + 1)
    else p
  }

  /** The slash-separated parts of corner c's text. */
  function CornerParts(w: IndexedBuffers, c: nat): (r: seq<string>)
    requires IndicesCompatible(w) && c < |w.pindices|
    ensures 1 <= |r| <= 3 && Join(r, '/') == CornerToken(w, c)
  {
    var p := ShowInt(w.pindices[c] + 1);
    var t := if w.tindices.Some? then ShowInt(w.tindices.value[c] + 1) else "";
    var n := if w.nindices.Some? then ShowInt(w.nindices.value[c] + 1) else "";
    SlashParts(p, t, n, TexturedFaces(w), NormalFaces(w))
  }

  /** The parts of a corner with position text p, texture text t and normal
      text n; the texture part is left empty when only normals are present. */
  function SlashParts(p: string, t: string, n: string, textured: bool, normal: bool): (r: seq<string>)
    ensures 1 <= |r| <= 3
    ensures Join(r, '/') ==
      if textured then (if normal then p + "/" + t + "/" + n else p + "/" + t)
      else if normal then p + "//" + n
      else p
  {
    var r :=
      if textured then
        if normal then [p, t, n] else [p, t]
      else if normal then [p, "", n]
      else [p];
    JoinParts(r);
    assert p + "/" + "" + "/" + n == p + "//" + n;
    r
  }

  /** No part of a corner holds a slash, a space or a line break. */
  lemma CornerPartsChars(w: IndexedBuffers, c: nat)
    requires IndicesCompatible(w) && c < |w.pindices|
    ensures forall k :: 0 <= k < |CornerParts(w, c)| ==>
      var part := CornerParts(w, c)[k]; '/' !in part && ' ' !in part && '\n' !in part
  {
    var p := ShowInt(w.pindices[c] + 1);
    var t := if w.tindices.Some? then ShowInt(w.tindices.value[c] + 1) else "";
    var n := if w.nindices.Some? then ShowInt(w.nindices.value[c] + 1) else "";
    PlainPart(w.pindices[c] + 1);
    if w.tindices.Some? {
      PlainPart(w.tindices.value[c] + 1);
    }
    if w.nindices.Some? {
      PlainPart(w.nindices.value[c] + 1);
    }
    assert CornerParts(w, c) == SlashParts(p, t, n, TexturedFaces(w), NormalFaces(w));
    SlashPartsChars(p, t, n, TexturedFaces(w), NormalFaces(w));
  }

  lemma PlainPart(i: int)
    ensures '/' !in ShowInt(i) && ' ' !in ShowInt(i) && '\n' !in ShowInt(i)
  {
    ShowIntChars(i);
    assert NoSpace(ShowInt(i));
  }

  lemma SlashPartsChars(p: string, t: string, n: string, textured: bool, normal: bool)
    requires '/' !in p && ' ' !in p && '\n' !in p
    requires '/' !in t && ' ' !in t && '\n' !in t
    requires '/' !in n && ' ' !in n && '\n' !in n
    ensures forall k :: 0 <= k < |SlashParts(p, t, n, textured, normal)| ==>
      var part := SlashParts(p, t, n, textured, normal)[k]; '/' !in part && ' ' !in part && '\n' !in part
  {
  }

  lemma JoinParts(r: seq<string>)
    requires 1 <= |r| <= 3
    ensures |r| == 2 ==> Join(r, '/') == r[0] + "/" + r[1]
    ensures |r| == 3 ==> Join(r, '/') == r[0] + "/" + r[1] + "/" + r[2]
  {
    if |r| >= 2 {
      assert Join(r[..1], '/') == r[0];
      assert Join(r[..2], '/') == r[0] + "/" + r[1];
      if |r| == 3 {
        assert r[..3][..2] == r[..2];
        assert r == r[..3];
      } else {
        assert r == r[..2];
      }
    }
  }

  /** The texts of the n corners from corner lo on. */
  function Corners(w: IndexedBuffers, lo: nat, n: nat): (r: seq<string>)
    requires IndicesCompatible(w) && lo + n <= |w.pindices|
    ensures |r| == n
  {
    seq(n, j requires 0 <= j < n => CornerToken(w, lo + j))
  }

  /** The line of each face of an n-gon mesh: "f" followed by the texts of
      its n corners, each after a space (FaceLineAt). */
  function FaceLines(n: nat, w: IndexedBuffers): (r: seq<string>)
    requires n >= 1 && IndicesCompatible(w) && |w.pindices| % n == 0
    ensures n * |r| == |w.pindices|
  {
    var r := Records("f", n, Corners(w, 0, |w.pindices|));
    RecordsCount("f", n, Corners(w, 0, |w.pindices|));
    WholeGroups(n, |w.pindices|, |r|);
    r
  }

  /** The line of the face whose corners start at lo. */
  lemma FaceLineAt(n: nat, w: IndexedBuffers, corners: seq<string>, lo: nat, hi: nat)
    requires n >= 1 && IndicesCompatible(w) && corners == Corners(w, 0, |w.pindices|)
    requires hi == lo + n <= |corners|
    ensures Record("f", corners[lo..hi]) == "f " + Join(Corners(w, lo, n), ' ')
  {
    var face := Corners(w, lo, n);
    assert corners[lo..hi] == face;
    SpacedJoin(face);
  }

  /** The values each after a space are a space and then the values with
      spaces between them. */
  lemma {:induction false} SpacedJoin(vs: seq<Token>)
    requires |vs| >= 1
    ensures Spaced(vs) == " " + Join(vs, ' ')
  {
    if |vs| > 1 {
      SpacedJoin(vs[..|vs| - 1]);
    } else {
      assert vs[..0] == [];
    }
  }

  /** The lines the indexed `write_obj` emits for an n-gon mesh: the header,
      the vertex lines and one line per face. */
  function IndexedObjLines(n: nat, w: IndexedBuffers): (r: seq<string>)
    requires n >= 1 && SizesValid(VertexBuffers(w)) && IndicesCompatible(w) && |w.pindices| % n == 0
  {
    [Header] + VertexLines(VertexBuffers(w)) + FaceLines(n, w)
  }

  /** The file holding the lines, each ended by a line break. */
  function Unlines(ls: seq<string>): string {
    if ls == [] then [] else Unlines(ls[..|ls| - 1]) + ls[|ls| - 1] + "\n"
  }

  lemma {:induction false} UnlinesAppend(a: seq<string>, b: seq<string>)
    ensures Unlines(a + b) == Unlines(a) + Unlines(b)
    decreases |b|
  {
    if b == [] {
      assert a + b == a;
    } else {
      var b' := b[..|b| - 1];
      assert (a + b)[..|a + b| - 1] == a + b';
      UnlinesAppend(a, b');
    }
  }
}
