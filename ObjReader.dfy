/** `read_obj`, both overloads, and `read_vertex_properties`.  The caller's
    buffers are the initial contents handed in and the final contents handed
    back; the reader only ever appends to them.  A thrown exception ends the
    read with the buffers as far as they were filled. */
module ObjReader {
  import opened ObjText
  import opened ObjStream
  import opened ObjRecords

  // ---------------------------------------------------------------------
  // Specification

  /** `read_vertex_properties<n>`: n values read off the stream, in order. */
  function ReadValues(n: nat, st: Stream): (r: (seq<Token>, Stream))
    ensures |r.0| == n && Measure(r.1) <= Measure(st)
  {
    if n == 0 then ([], st)
    else
      var (vs, st1) := ReadValues(n - 1, st);
      var (v, st2) := ReadWord(st1);
      (vs + [v], st2)
  }

  /** A specifier that names a vertex record the reader stores: a texture
      coordinate or a normal only when there is a buffer for it. */
  predicate IsVertexRecord(specifier: string, b: Buffers) {
    || specifier == "v"
    || (specifier == "vt" && b.texcoords.Some?)
    || (specifier == "vn" && b.normals.Some?)
  }

  /** The values of a vertex record appended to the buffer it names: three
      positions, two texture coordinates or three normals. */
  function VertexRecord(specifier: string, st: Stream, b: Buffers): (r: (Stream, Buffers))
    requires IsVertexRecord(specifier, b)
    ensures Measure(r.0) <= Measure(st)
    ensures r.1.texcoords.Some? == b.texcoords.Some? && r.1.normals.Some? == b.normals.Some?
    ensures b.positions <= r.1.positions
    ensures |r.1.positions| == |b.positions| + (if specifier == "v" then 3 else 0)
    ensures b.texcoords.Some? ==> b.texcoords.value <= r.1.texcoords.value
    ensures b.texcoords.Some? ==> |r.1.texcoords.value| == |b.texcoords.value| + (if specifier == "vt" then 2 else 0)
    ensures b.normals.Some? ==> b.normals.value <= r.1.normals.value
    ensures b.normals.Some? ==> |r.1.normals.value| == |b.normals.value| + (if specifier == "vn" then 3 else 0)
  {
    if specifier == "v" then
      var (vs, st1) := ReadValues(3, st);
      (st1, b.(positions := b.positions + vs))
    else if specifier == "vt" then
      var (vs, st1) := ReadValues(2, st);
      (st1, b.(texcoords := Some(b.texcoords.value + vs)))
    else
      var (vs, st1) := ReadValues(3, st);
      (st1, b.(normals := Some(b.normals.value + vs)))
  }

  /** What the first overload does after reading a specifier: read the
      values of a vertex record, or skip the rest of the line. */
  function Dispatch(specifier: string, st: Stream, b: Buffers): (r: (Stream, Buffers))
    ensures Measure(r.0) <= Measure(st)
  {
    if IsVertexRecord(specifier, b) then VertexRecord(specifier, st, b)
    else (GetLine(st).1, b)
  }

  /** The first overload: records read until the end of the file. */
  function ReadAll(st: Stream, b: Buffers): Buffers
    decreases Measure(st)
  {
    if st.eof then b
    else
      var (specifier, st1) := ReadWord(st);
      var (st2, b1) := Dispatch(specifier, st1, b);
      ReadAll(st2, b1)
  }

  /** The caller's buffers only grow, and keep being there or not. */
  lemma {:induction false} ReadAllAppends(st: Stream, b: Buffers)
    ensures var r := ReadAll(st, b);
      && b.positions <= r.positions
      && r.texcoords.Some? == b.texcoords.Some? && (b.texcoords.Some? ==> b.texcoords.value <= r.texcoords.value)
      && r.normals.Some? == b.normals.Some? && (b.normals.Some? ==> b.normals.value <= r.normals.value)
    decreases Measure(st)
  {
    if !st.eof {
      var (specifier, st1) := ReadWord(st);
      var (st2, b1) := Dispatch(specifier, st1, b);
      ReadAllAppends(st2, b1);
    }
  }

  function VertexPart(w: IndexedBuffers): Buffers {
    Buffers(w.positions, w.texcoords, w.normals)
  }

  function WithVertices(w: IndexedBuffers, b: Buffers): IndexedBuffers {
    w.(positions := b.positions, texcoords := b.texcoords, normals := b.normals)
  }

  /** One face corner: its slash-separated parts, the first one to the
      position indices, the second one to the texture indices if there is a
      buffer for them, the third one to the normal indices if there are
      exactly three parts and there is a buffer for them, each less one.
      More than three parts is an error, raised once the others are
      stored. */
  function ParseCorner(face: string, w: IndexedBuffers): (r: (IndexedBuffers, Option<ObjError>))
    ensures VertexPart(r.0) == VertexPart(w)
    ensures r.0.tindices.Some? == w.tindices.Some? && r.0.nindices.Some? == w.nindices.Some?
    ensures r.1 == None || r.1 == Some(BadObjFile) || r.1 == Some(InvalidIndex)
    ensures var idx := Split(face, '/', 0);
      r.1 == Some(BadObjFile) ==>
        && |idx| > 3
        && |r.0.pindices| == |w.pindices| + 1
        && (w.tindices.Some? ==> |r.0.tindices.value| == |w.tindices.value| + 1)
        && r.0.nindices == w.nindices
    ensures var idx := Split(face, '/', 0);
      r.1 == None ==>
        && |idx| <= 3
        && |r.0.pindices| == |w.pindices| + (if |idx| >= 1 then 1 else 0)
    ensures w.pindices <= r.0.pindices
  {
    var idx := Split(face, '/', 0);
    var p := if |idx| >= 1 then StoreIndex(idx[0], w.pindices) else Some(w.pindices);
    if p.None? then (w, Some(InvalidIndex))
    else
      var w1 := w.(pindices := p.value);
      var t := if |idx| >= 2 && w1.tindices.Some? then StoreIndex(idx[1], w1.tindices.value) else None;
      if |idx| >= 2 && w1.tindices.Some? && t.None? then (w1, Some(InvalidIndex))
      else
        var w2 := if t.Some? then w1.(tindices := t) else w1;
        var v := if |idx| == 3 && w2.nindices.Some? then StoreIndex(idx[2], w2.nindices.value) else None;
        if |idx| == 3 && w2.nindices.Some? && v.None? then (w2, Some(InvalidIndex))
        else
          var w3 := if v.Some? then w2.(nindices := v) else w2;
          if |idx| > 3 then (w3, Some(BadObjFile)) else (w3, None)
  }

  /** An index part converted by `stoi` and stored less one; a part that is
      not a number throws. */
  function StoreIndex(part: string, buffer: seq<int>): (r: Option<seq<int>>)
    ensures r.Some? <==> Stoi(part).Some?
    ensures r.Some? ==> r.value == buffer + [Stoi(part).value - 1]
  {
    match Stoi(part)
    case None => None
    case Some(i) => Some(buffer + [i - 1])
  }

  /** The corners of a face in order, up to the first error. */
  function ParseCorners(faces: seq<string>, w: IndexedBuffers): (r: (IndexedBuffers, Option<ObjError>))
    ensures VertexPart(r.0) == VertexPart(w)
    ensures r.1 == None || r.1 == Some(BadObjFile) || r.1 == Some(InvalidIndex)
    ensures w.pindices <= r.0.pindices
    ensures r.1 == None && (forall k :: 0 <= k < |faces| ==> faces[k] != []) ==>
      |r.0.pindices| == |w.pindices| + |faces|
  {
    if faces == [] then (w, None)
    else
      var (w1, err) := ParseCorner(faces[0], w);
      if err.Some? then (w1, err)
      else
        assert faces[0] != [] ==> |Split(faces[0], '/', 0)| >= 1;
        ParseCorners(faces[1..], w1)
  }

  /** A face line: the rest of the line after "f" split at spaces, its first
      character dropped; a count other than n is an error raised before any
      corner is stored. */
  function ParseFace(n: nat, line: string, w: IndexedBuffers): (r: (IndexedBuffers, Option<ObjError>))
    ensures r.1 == Some(NotPolygon(n)) <==> |Split(line, ' ', 1)| != n
    ensures r.1 == Some(NotPolygon(n)) ==> r.0 == w
    ensures VertexPart(r.0) == VertexPart(w) && w.pindices <= r.0.pindices
  {
    var faces := Split(line, ' ', 1);
    if |faces| != n then (w, Some(NotPolygon(n))) else ParseCorners(faces, w)
  }

  /** What the indexed overload does after reading a specifier: skip a
      comment, read a vertex record, read a face, or skip the rest of the
      line.  Only a face changes the index buffers or raises. */
  function IndexedDispatch(n: nat, specifier: string, st: Stream, w: IndexedBuffers)
    : (r: (Stream, IndexedBuffers, Option<ObjError>))
    ensures Measure(r.0) <= Measure(st)
    ensures specifier != "f" ==>
      r.2 == None && r.1.pindices == w.pindices && r.1.tindices == w.tindices && r.1.nindices == w.nindices
  {
    if specifier == "#" then (GetLine(st).1, w, None)
    else if IsVertexRecord(specifier, VertexPart(w)) then
      var (st1, b) := VertexRecord(specifier, st, VertexPart(w));
      (st1, WithVertices(w, b), None)
    else if specifier == "f" then
      var (line, st1) := GetLine(st);
      var (w1, err) := ParseFace(n, line, w);
      (st1, w1, err)
    else (GetLine(st).1, w, None)
  }

  /** The indexed overload: records read until the end of the file or the
      first error. */
  function ReadAllIndexed(n: nat, st: Stream, w: IndexedBuffers): (IndexedBuffers, Option<ObjError>)
    decreases Measure(st)
  {
    if st.eof then (w, None)
    else
      var (specifier, st1) := ReadWord(st);
      var (st2, w1, err) := IndexedDispatch(n, specifier, st1, w);
      if err.Some? then (w1, err) else ReadAllIndexed(n, st2, w1)
  }

  // ---------------------------------------------------------------------
  // The reader

  method ReadVertexProperties(n: nat, st0: Stream, buffer0: seq<Token>) returns (st: Stream, buffer: seq<Token>)
    ensures st == ReadValues(n, st0).1 && buffer == buffer0 + ReadValues(n, st0).0
  {
    st, buffer := st0, buffer0;
    for i := 0 to n
      invariant st == ReadValues(i, st0).1 && buffer == buffer0 + ReadValues(i, st0).0
    {
      var r := ReadWord(st);
      st := r.1;
      buffer := buffer + [r.0];
    }
  }

  /** The branches for v, vt and vn records. */
  method ReadVertexRecord(specifier: string, st0: Stream, b0: Buffers) returns (st: Stream, b: Buffers)
    requires IsVertexRecord(specifier, b0)
    ensures (st, b) == VertexRecord(specifier, st0, b0)
  {
    b := b0;
    if specifier == "v" {
      var positions;
      st, positions := ReadVertexProperties(3, st0, b.positions);
      b := b.(positions := positions);
    } else if specifier == "vt" {
      var texcoords;
      st, texcoords := ReadVertexProperties(2, st0, b.texcoords.value);
      b := b.(texcoords := Some(texcoords));
    } else {
      var normals;
      st, normals := ReadVertexProperties(3, st0, b.normals.value);
      b := b.(normals := Some(normals));
    }
  }

  /** `read_obj` for vertex buffers. */
  method ReadObj(text: string, b0: Buffers) returns (b: Buffers)
    ensures b == ReadAll(Stream(text, false), b0)
  {
    var st := Stream(text, false);
    b := b0;
    while !st.eof
      invariant ReadAll(st, b) == ReadAll(Stream(text, false), b0)
      decreases Measure(st)
    {
      var r := ReadWord(st);
      var specifier := r.0;
      if IsVertexRecord(specifier, b) {
        st, b := ReadVertexRecord(specifier, r.1, b);
      } else {
        st := GetLine(r.1).1;
      }
    }
  }

  method ReadCorner(face: string, w0: IndexedBuffers) returns (w: IndexedBuffers, err: Option<ObjError>)
    ensures (w, err) == ParseCorner(face, w0)
  {
    var idx := Split(face, '/', 0);
    w := w0;
    if |idx| >= 1 {
      var p := StoreIndex(idx[0], w.pindices);
      if p.None? {
        return w, Some(InvalidIndex);
      }
      w := w.(pindices := p.value);
    }
    if |idx| >= 2 && w.tindices.Some? {
      var t := StoreIndex(idx[1], w.tindices.value);
      if t.None? {
        return w, Some(InvalidIndex);
      }
      w := w.(tindices := t);
    }
    if |idx| == 3 && w.nindices.Some? {
      var v := StoreIndex(idx[2], w.nindices.value);
      if v.None? {
        return w, Some(InvalidIndex);
      }
      w := w.(nindices := v);
    }
    if |idx| > 3 {
      return w, Some(BadObjFile);
    }
    err := None;
  }

  method ReadFace(n: nat, line: string, w0: IndexedBuffers) returns (w: IndexedBuffers, err: Option<ObjError>)
    ensures (w, err) == ParseFace(n, line, w0)
  {
    var faces := Split(line, ' ', 1);
    if |faces| != n {
      return w0, Some(NotPolygon(n));
    }
    w := w0;
    for t := 0 to |faces|
      invariant ParseCorners(faces[t..], w) == ParseCorners(faces, w0)
    {
      assert faces[t..][0] == faces[t] && faces[t..][1..] == faces[t + 1..];
      w, err := ReadCorner(faces[t], w);
      if err.Some? {
        return;
      }
    }
    assert faces[|faces|..] == [];
    err := None;
  }

  method ReadIndexedRecord(n: nat, specifier: string, st0: Stream, w0: IndexedBuffers)
    returns (st: Stream, w: IndexedBuffers, err: Option<ObjError>)
    ensures (st, w, err) == IndexedDispatch(n, specifier, st0, w0)
  {
    w, err := w0, None;
    if specifier == "#" {
      st := GetLine(st0).1;
    } else if IsVertexRecord(specifier, VertexPart(w)) {
      var b;
      st, b := ReadVertexRecord(specifier, st0, VertexPart(w));
      w := WithVertices(w, b);
    } else if specifier == "f" {
      var l := GetLine(st0);
      st := l.1;
      w, err := ReadFace(n, l.0, w);
    } else {
      st := GetLine(st0).1;
    }
  }

  /** The indexed `read_obj` for an n-gon mesh. */
  method ReadIndexedObj(n: nat, text: string, w0: IndexedBuffers) returns (w: IndexedBuffers, err: Option<ObjError>)
    ensures (w, err) == ReadAllIndexed(n, Stream(text, false), w0)
  {
    var st := Stream(text, false);
    w := w0;
    while !st.eof
      invariant ReadAllIndexed(n, st, w) == ReadAllIndexed(n, Stream(text, false), w0)
      decreases Measure(st)
    {
      var r := ReadWord(st);
      st, w, err := ReadIndexedRecord(n, r.0, r.1, w);
      if err.Some? {
        return;
      }
    }
    err := None;
  }
}
