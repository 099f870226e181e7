/** `write_obj`, both overloads.  The output stream is the text of the file
    written so far; opening it empties the file, so a size check that fails
    leaves the file empty. */
module ObjWriter {
  import opened ObjText
  import opened ObjRecords

  /** Appends the lines of the groups of k values, one group per line.  The
      loop steps by k up to the size of the buffer, so the buffer must hold
      whole groups. */
  method WriteRecords(out: string, tag: string, k: nat, vs: seq<Token>) returns (text: string)
    requires k > 0 && |vs| % k == 0
    ensures text == out + Unlines(Records(tag, k, vs))
  {
    ghost var groups := |Records(tag, k, vs)|;
    RecordsCount(tag, k, vs);
    WholeGroups(k, |vs|, groups);
    text := out;
    var i := 0;
    ghost var g := 0;
    while i < |vs|
      invariant i == k * g && g <= groups
      invariant text + Unlines(Records(tag, k, vs[i..])) == out + Unlines(Records(tag, k, vs))
      decreases |vs| - i
    {
      var j := i + k;
      NextGroup(k, g, groups, i, j, |vs|);
      ghost var before := text;
      text := text + Record(tag, vs[i..j]) + "\n";
      RecordStep(tag, k, vs, i, j, before, text, out + Unlines(Records(tag, k, vs)));
      i := j;
      g := g + 1;
    }
    NothingLeft(tag, k, vs, i, text, out + Unlines(Records(tag, k, vs)));
  }

  /** The lines of the values from i on start with the line of the group
      from i to j. */
  lemma RecordsFront(tag: string, k: nat, vs: seq<Token>, i: nat, j: nat)
    requires k > 0 && j == i + k <= |vs|
    ensures Unlines(Records(tag, k, vs[i..])) == Record(tag, vs[i..j]) + "\n" + Unlines(Records(tag, k, vs[j..]))
  {
    assert vs[i..][..k] == vs[i..j] && vs[i..][k..] == vs[j..];
    UnlinesFront(Record(tag, vs[i..j]), Records(tag, k, vs[j..]));
  }

  /** Writing the line of the group from i to j moves it from the lines
      still to write to the text. */
  lemma RecordStep(tag: string, k: nat, vs: seq<Token>, i: nat, j: nat, before: string, after: string, whole: string)
    requires k > 0 && j == i + k <= |vs|
    requires after == before + Record(tag, vs[i..j]) + "\n"
    requires before + Unlines(Records(tag, k, vs[i..])) == whole
    ensures after + Unlines(Records(tag, k, vs[j..])) == whole
  {
    RecordsFront(tag, k, vs, i, j);
    LineStep(before, Record(tag, vs[i..j]), after, Unlines(Records(tag, k, vs[j..])));
  }

  lemma UnlinesFront(l: string, ls: seq<string>)
    ensures Unlines([l] + ls) == l + "\n" + Unlines(ls)
  {
    UnlinesAppend([l], ls);
    assert [l][..0] == [];
  }

  /** The position lines, then the texture coordinate lines if there is a
      texture coordinate buffer, then the normal lines if there is a normal
      buffer. */
  method WriteVertices(out: string, b: Buffers) returns (text: string)
    requires SizesValid(b)
    ensures text == out + Unlines(VertexLines(b))
  {
    text := WriteRecords(out, "v", 3, b.positions);
    ghost var lines := Records("v", 3, b.positions);
    if b.texcoords.Some? {
      var before := text;
      text := WriteRecords(text, "vt", 2, b.texcoords.value);
      AppendLines(out, before, text, lines, Records("vt", 2, b.texcoords.value));
      lines := lines + Records("vt", 2, b.texcoords.value);
    }
    if b.normals.Some? {
      var before := text;
      text := WriteRecords(text, "vn", 3, b.normals.value);
      AppendLines(out, before, text, lines, Records("vn", 3, b.normals.value));
      lines := lines + Records("vn", 3, b.normals.value);
    }
    assert lines == VertexLines(b);
  }

  /** Writing the lines b after the lines a writes the lines a + b. */
  lemma AppendLines(out: string, before: string, after: string, a: seq<string>, b: seq<string>)
    requires before == out + Unlines(a) && after == before + Unlines(b)
    ensures after == out + Unlines(a + b)
  {
    UnlinesAppend(a, b);
    assert out + Unlines(a) + Unlines(b) == out + (Unlines(a) + Unlines(b));
  }

  /** The text of the lines b written after the text of the lines a. */
  lemma LinesThen(a: seq<string>, b: seq<string>, before: string, after: string)
    requires before == Unlines(a) && after == before + Unlines(b)
    ensures after == Unlines(a + b)
  {
    UnlinesAppend(a, b);
  }

  lemma EmptyThen(a: string, b: string)
    ensures [] + a + b == a + b
  {
  }

  /** `write_obj` for vertex buffers: nothing is written unless the sizes are
      valid; otherwise the header and the vertex lines. */
  method WriteObj(b: Buffers) returns (file: string, err: Option<ObjError>)
    ensures err.Some? <==> !SizesValid(b)
    ensures err.Some? ==> err == Some(SizeNotValid) && file == []
    ensures err.None? ==> file == Unlines([Header] + VertexLines(b))
  {
    file := [];
    if |b.positions| % 3 != 0 {
      return file, Some(SizeNotValid);
    }
    if b.texcoords.Some? && |b.texcoords.value| % 2 != 0 {
      return file, Some(SizeNotValid);
    }
    if b.normals.Some? && |b.normals.value| % 3 != 0 {
      return file, Some(SizeNotValid);
    }
    file := file + Header + "\n";
    EmptyThen(Header, "\n");
    file := WriteVertices(file, b);
    UnlinesFront(Header, VertexLines(b));
    err := None;
  }

  /** The text of face corner c, piece by piece as the stream receives it. */
  method WriteCorner(w: IndexedBuffers, c: nat) returns (token: string)
    requires IndicesCompatible(w) && c < |w.pindices|
    ensures token == CornerToken(w, c)
  {
    token := ShowInt(w.pindices[c] + 1);
    if w.texcoords.Some? && w.tindices.Some? {
      token := token + "/" + ShowInt(w.tindices.value[c] + 1);
      if w.normals.Some? && w.nindices.Some? {
        token := token + "/" + ShowInt(w.nindices.value[c] + 1);
      }
    } else if w.normals.Some? && w.nindices.Some? {
      token := token + "//" + ShowInt(w.nindices.value[c] + 1);
    }
  }

  /** The line of the n-gon whose corners start at i: "f ", then the corner
      texts with a space between two of them. */
  method WriteFace(n: nat, w: IndexedBuffers, i: nat) returns (line: string)
    requires n >= 1 && IndicesCompatible(w) && i + n <= |w.pindices|
    ensures line == "f " + Join(Corners(w, i, n), ' ')
  {
    ghost var tokens := Corners(w, i, n);
    line := "f ";
    for j := 0 to n
      invariant line == PartialFace(tokens, j)
    {
      var token := WriteCorner(w, i + j);
      ghost var before := line;
      line := line + token;
      if j < n - 1 {
        line := line + " ";
      }
      FaceStep(tokens, j, before, token, line);
    }
    assert tokens[..n] == tokens;
  }

  /** The text of a face line once its first j corners are written. */
  ghost function PartialFace(tokens: seq<string>, j: nat): string
    requires j <= |tokens|
  {
    if j == 0 then "f " else "f " + Join(tokens[..j], ' ') + (if j < |tokens| then " " else "")
  }

  lemma FaceStep(tokens: seq<string>, j: nat, before: string, token: string, after: string)
    requires j < |tokens| && before == PartialFace(tokens, j) && token == tokens[j]
    requires after == before + token + (if j < |tokens| - 1 then " " else "")
    ensures after == PartialFace(tokens, j + 1)
  {
    var sep := if j < |tokens| - 1 then " " else "";
    if j == 0 {
      assert tokens[..1] == [token];
    } else {
      var prev := Join(tokens[..j], ' ');
      assert tokens[..j + 1][..j] == tokens[..j];
      assert Join(tokens[..j + 1], ' ') == prev + " " + token;
      assert after == "f " + (prev + " " + token) + sep;
    }
  }

  /** One line per face, from the face whose corners start at 0 on. */
  method WriteFaces(out: string, n: nat, w: IndexedBuffers) returns (text: string)
    requires n >= 1 && IndicesCompatible(w) && |w.pindices| % n == 0
    ensures text == out + Unlines(FaceLines(n, w))
  {
    ghost var corners := Corners(w, 0, |w.pindices|);
    ghost var whole := out + Unlines(Records("f", n, corners));
    ghost var faces := |Records("f", n, corners)|;
    RecordsCount("f", n, corners);
    WholeGroups(n, |corners|, faces);
    text := out;
    var i := 0;
    ghost var f := 0;
    while i < |w.pindices|
      invariant i == n * f && f <= faces && i <= |corners|
      invariant text + Unlines(Records("f", n, corners[i..])) == whole
      decreases |w.pindices| - i
    {
      var next := i + n;
      NextGroup(n, f, faces, i, next, |corners|);
      var line := WriteFace(n, w, i);
      ghost var before := text;
      text := text + line + "\n";
      FacesStep(n, w, corners, i, next, before, line, text, whole);
      i := next;
      f := f + 1;
    }
    NothingLeft("f", n, corners, i, text, whole);
  }

  /** Once every group is written, the text is the whole text. */
  lemma NothingLeft(tag: string, k: nat, vs: seq<Token>, i: nat, text: string, whole: string)
    requires k > 0 && i == |vs| && text + Unlines(Records(tag, k, vs[i..])) == whole
    ensures text == whole
  {
    assert vs[i..] == [];
    assert text + [] == text;
  }

  lemma FacesStep(n: nat, w: IndexedBuffers, corners: seq<string>, i: nat, next: nat,
                  before: string, line: string, after: string, whole: string)
    requires n >= 1 && IndicesCompatible(w) && corners == Corners(w, 0, |w.pindices|) && next == i + n <= |corners|
    requires line == "f " + Join(Corners(w, i, n), ' ') && after == before + line + "\n"
    requires before + Unlines(Records("f", n, corners[i..])) == whole
    ensures after + Unlines(Records("f", n, corners[next..])) == whole
  {
    FaceLineAt(n, w, corners, i, next);
    RecordsFront("f", n, corners, i, next);
    LineStep(before, line, after, Unlines(Records("f", n, corners[next..])));
  }

  /** Writing a line moves it from the lines still to write to the text. */
  lemma LineStep(before: string, line: string, after: string, rest: string)
    requires after == before + line + "\n"
    ensures after + rest == before + (line + "\n" + rest)
  {
  }

  /** The indexed `write_obj` for an n-gon mesh: nothing is written unless
      the sizes are valid, the index buffers agree in size and the position
      indices make whole faces; the checks are made in that order. */
  method WriteIndexedObj(n: nat, w: IndexedBuffers) returns (file: string, err: Option<ObjError>)
    requires n >= 1
    ensures err == Some(SizeNotValid) <==> !SizesValid(VertexBuffers(w))
    ensures err == Some(IndicesIncompatible) <==> SizesValid(VertexBuffers(w)) && !IndicesCompatible(w)
    ensures err == Some(InvalidPolygonInput(n)) <==>
      SizesValid(VertexBuffers(w)) && IndicesCompatible(w) && |w.pindices| % n != 0
    ensures err.None? <==> SizesValid(VertexBuffers(w)) && IndicesCompatible(w) && |w.pindices| % n == 0
    ensures err.Some? ==> file == []
    ensures err.None? ==> file == Unlines(IndexedObjLines(n, w))
  {
    file := [];
    if |w.positions| % 3 != 0 {
      return file, Some(SizeNotValid);
    }
    if w.texcoords.Some? && |w.texcoords.value| % 2 != 0 {
      return file, Some(SizeNotValid);
    }
    if w.normals.Some? && |w.normals.value| % 3 != 0 {
      return file, Some(SizeNotValid);
    }
    if (w.tindices.Some? && |w.tindices.value| != |w.pindices|)
      || (w.nindices.Some? && |w.nindices.value| != |w.pindices|)
    {
      return file, Some(IndicesIncompatible);
    }
    if |w.pindices| % n != 0 {
      return file, Some(InvalidPolygonInput(n));
    }
    file := file + Header + "\n";
    EmptyThen(Header, "\n");
    file := WriteVertices(file, VertexBuffers(w));
    UnlinesFront(Header, VertexLines(VertexBuffers(w)));
    ghost var before := file;
    file := WriteFaces(file, n, w);
    LinesThen([Header] + VertexLines(VertexBuffers(w)), FaceLines(n, w), before, file);
    err := None;
  }
}
