/** What `read_obj` makes of a file `write_obj` wrote: every written value
    and index comes back, appended to the reader's buffers, as long as the
    values are words (the stream prints a number as one) and the reader
    does not ask for texture indices of corners written as p//n. */
module ObjRoundTrip {
  import opened ObjText
  import opened ObjStream
  import opened ObjRecords
  import opened ObjWriter
  import opened ObjReader

  predicate Words(vs: seq<Token>) {
    forall i :: 0 <= i < |vs| ==> IsWord(vs[i])
  }

  /** Every value of the buffers is a word. */
  predicate WordBuffers(b: Buffers) {
    && Words(b.positions)
    && (b.texcoords.Some? ==> Words(b.texcoords.value))
    && (b.normals.Some? ==> Words(b.normals.value))
  }

  // ---------------------------------------------------------------------
  // Reading single lines

  /** Where a record starts, white space left over from the line before
      makes no difference. */
  lemma ReadWordSpace(ws: string, r: string)
    requires forall i :: 0 <= i < |ws| ==> IsSpace(ws[i])
    ensures ReadWord(Stream(ws + r, false)) == ReadWord(Stream(r, false))
  {
    SkipSpacePrefix(ws, r);
  }

  lemma ReadAllSpace(ws: string, r: string, b: Buffers)
    requires forall i :: 0 <= i < |ws| ==> IsSpace(ws[i])
    ensures ReadAll(Stream(ws + r, false), b) == ReadAll(Stream(r, false), b)
  {
    ReadWordSpace(ws, r);
  }

  lemma ReadAllIndexedSpace(n: nat, ws: string, r: string, w: IndexedBuffers)
    requires forall i :: 0 <= i < |ws| ==> IsSpace(ws[i])
    ensures ReadAllIndexed(n, Stream(ws + r, false), w) == ReadAllIndexed(n, Stream(r, false), w)
  {
    ReadWordSpace(ws, r);
  }

  /** The values each after a space hold no line break. */
  lemma {:induction false} SpacedBreakFree(vs: seq<Token>)
    requires Words(vs)
    ensures '\n' !in Spaced(vs)
  {
    if vs != [] {
      SpacedBreakFree(vs[..|vs| - 1]);
      assert IsWord(vs[|vs| - 1]);
    }
  }

  /** Reading the values each after a space, one by one, gives the values. */
  lemma {:induction false} ReadSpaced(vs: seq<Token>, post: string)
    requires Words(vs) && post != [] && IsSpace(post[0])
    ensures ReadValues(|vs|, Stream(Spaced(vs) + post, false)) == (vs, Stream(post, false))
    decreases |vs|
  {
    if vs == [] {
      assert Spaced(vs) + post == post;
    } else {
      var init, last := vs[..|vs| - 1], vs[|vs| - 1];
      var post' := " " + last + post;
      assert Spaced(vs) + post == Spaced(init) + post';
      ReadSpaced(init, post');
      ReadWordOf(" ", last, post);
      InitLast(vs);
    }
  }

  lemma InitLast<T>(s: seq<T>)
    requires s != []
    ensures s[..|s| - 1] + [s[|s| - 1]] == s
  {
  }

  /** A line written for a tag and its values: the tag reads as the
      specifier. */
  lemma RecordTag(tag: string, vs: seq<Token>, r: string)
    requires IsWord(tag) && |vs| >= 1
    ensures ReadWord(Stream(Record(tag, vs) + "\n" + r, false)) == (tag, Stream(Spaced(vs) + "\n" + r, false))
  {
    SpacedJoin(vs);
    var post := Spaced(vs) + "\n" + r;
    Regroup(tag, Spaced(vs), "\n", r);
    ReadWordOf([], tag, post);
  }

  lemma Nest(a: string, b: string, c: string, d: string)
    ensures a + b + c + d == a + (b + (c + d))
  {
  }

  lemma Regroup(a: string, b: string, c: string, d: string)
    ensures a + b + c + d == [] + a + (b + c + d)
  {
  }

  /** After the specifier, the values read back, or the rest of the line is
      the values each after a space. */
  lemma RecordValues(vs: seq<Token>, r: string)
    requires Words(vs) && |vs| >= 1
    ensures var st := Stream(Spaced(vs) + "\n" + r, false);
      && ReadValues(|vs|, st) == (vs, Stream("\n" + r, false))
      && GetLine(st) == (Spaced(vs), Stream(r, false))
  {
    assert Spaced(vs) + "\n" + r == Spaced(vs) + ("\n" + r);
    ReadSpaced(vs, "\n" + r);
    SpacedBreakFree(vs);
    GetLineOf(Spaced(vs), r);
  }

  /** The header reads as a comment. */
  lemma HeaderLine(r: string)
    ensures var st := Stream(HeaderComment + "\n" + r, false);
      && ReadWord(Stream(Header + "\n" + r, false)) == ("#", st)
      && GetLine(st) == (HeaderComment, Stream(r, false))
  {
    assert '\n' !in " Generated" && '\n' !in " by" && '\n' !in " Euclid(" && '\n' !in "https://";
    assert '\n' !in "github.com/" && '\n' !in "unclejimbo/" && '\n' !in "Euclid)";
    assert '\n' !in HeaderComment;
    assert HeaderComment[0] == ' ';
    Regroup("#", HeaderComment, "\n", r);
    ReadWordOf([], "#", HeaderComment + "\n" + r);
    GetLineOf(HeaderComment, r);
  }

  // ---------------------------------------------------------------------
  // Vertex records

  predicate VertexTag(tag: string) {
    tag == "v" || tag == "vt" || tag == "vn"
  }

  /** The number of values a vertex record holds. */
  function Arity(tag: string): nat {
    if tag == "vt" then 2 else 3
  }

  /** The values of vertex records of the tag appended to the buffer the
      tag names, if the reader has that buffer. */
  function ReadTag(tag: string, b: Buffers, vs: seq<Token>): (r: Buffers)
    ensures r.texcoords.Some? == b.texcoords.Some? && r.normals.Some? == b.normals.Some?
  {
    if tag == "v" then b.(positions := b.positions + vs)
    else if tag == "vt" && b.texcoords.Some? then b.(texcoords := Some(b.texcoords.value + vs))
    else if tag == "vn" && b.normals.Some? then b.(normals := Some(b.normals.value + vs))
    else b
  }

  lemma ReadTagAppend(tag: string, b: Buffers, vs: seq<Token>, more: seq<Token>)
    ensures ReadTag(tag, ReadTag(tag, b, vs), more) == ReadTag(tag, b, vs + more)
  {
    if tag == "v" {
      assert b.positions + vs + more == b.positions + (vs + more);
    } else if tag == "vt" && b.texcoords.Some? {
      assert b.texcoords.value + vs + more == b.texcoords.value + (vs + more);
    } else if tag == "vn" && b.normals.Some? {
      assert b.normals.value + vs + more == b.normals.value + (vs + more);
    }
  }

  lemma ReadTagNone(tag: string, b: Buffers)
    ensures ReadTag(tag, b, []) == b
  {
    assert b.positions + [] == b.positions;
    assert b.texcoords.Some? ==> b.texcoords.value + [] == b.texcoords.value;
    assert b.normals.Some? ==> b.normals.value + [] == b.normals.value;
  }

  /** The values of a vertex line are stored or skipped as the reader's
      buffers say. */
  lemma RecordOf(tag: string, vs: seq<Token>, r: string, b: Buffers)
    requires VertexTag(tag) && Words(vs) && |vs| == Arity(tag)
    ensures Dispatch(tag, Stream(Spaced(vs) + "\n" + r, false), b) ==
      (if IsVertexRecord(tag, b) then Stream("\n" + r, false) else Stream(r, false), ReadTag(tag, b, vs))
  {
    RecordValues(vs, r);
  }

  lemma IndexedRecordOf(n: nat, tag: string, vs: seq<Token>, r: string, w: IndexedBuffers)
    requires VertexTag(tag) && Words(vs) && |vs| == Arity(tag)
    ensures IndexedDispatch(n, tag, Stream(Spaced(vs) + "\n" + r, false), w) ==
      (if IsVertexRecord(tag, VertexPart(w)) then Stream("\n" + r, false) else Stream(r, false),
       WithVertices(w, ReadTag(tag, VertexPart(w), vs)), None)
  {
    RecordValues(vs, r);
  }

  /** The front line of a block of records, and the lines after it. */
  lemma RecordsSplit(tag: string, k: nat, g: nat, h: nat, vs: seq<Token>, r: string)
    requires k > 0 && g == h + 1 && |vs| == k * g
    ensures k <= |vs| && |vs[k..]| == k * h
    ensures Unlines(Records(tag, k, vs)) + r == Record(tag, vs[..k]) + "\n" + (Unlines(Records(tag, k, vs[k..])) + r)
  {
    MulSucc(k, h);
    UnlinesFront(Record(tag, vs[..k]), Records(tag, k, vs[k..]));
  }

  /** A vertex line read by the first reader. */
  lemma ReadAllLine(tag: string, vs: seq<Token>, r: string, b: Buffers)
    requires VertexTag(tag) && Words(vs) && |vs| == Arity(tag)
    ensures ReadAll(Stream(Record(tag, vs) + "\n" + r, false), b) == ReadAll(Stream(r, false), ReadTag(tag, b, vs))
  {
    RecordTag(tag, vs, r);
    RecordOf(tag, vs, r, b);
    VertexLine(tag, Record(tag, vs), Spaced(vs), r, b, ReadTag(tag, b, vs));
  }

  /** A line whose specifier is a vertex tag, read by the first reader,
      whatever the line holds after the tag. */
  lemma VertexLine(tag: string, line: string, body: string, r: string, b: Buffers, b1: Buffers)
    requires ReadWord(Stream(line + "\n" + r, false)) == (tag, Stream(body + "\n" + r, false))
    requires Dispatch(tag, Stream(body + "\n" + r, false), b) ==
      (if IsVertexRecord(tag, b) then Stream("\n" + r, false) else Stream(r, false), b1)
    ensures ReadAll(Stream(line + "\n" + r, false), b) == ReadAll(Stream(r, false), b1)
  {
    if IsVertexRecord(tag, b) {
      ReadAllSpace("\n", r, b1);
    }
  }

  /** A vertex line read by the indexed reader. */
  lemma ReadAllIndexedLine(n: nat, tag: string, vs: seq<Token>, r: string, w: IndexedBuffers)
    requires VertexTag(tag) && Words(vs) && |vs| == Arity(tag)
    ensures ReadAllIndexed(n, Stream(Record(tag, vs) + "\n" + r, false), w)
         == ReadAllIndexed(n, Stream(r, false), WithVertices(w, ReadTag(tag, VertexPart(w), vs)))
  {
    RecordTag(tag, vs, r);
    IndexedRecordOf(n, tag, vs, r, w);
    IndexedVertexLine(n, tag, Record(tag, vs), Spaced(vs), r, w, WithVertices(w, ReadTag(tag, VertexPart(w), vs)));
  }

  /** A line whose specifier is a vertex tag, read by the indexed reader,
      whatever the line holds after the tag. */
  lemma IndexedVertexLine(n: nat, tag: string, line: string, body: string, r: string, w: IndexedBuffers, w1: IndexedBuffers)
    requires ReadWord(Stream(line + "\n" + r, false)) == (tag, Stream(body + "\n" + r, false))
    requires IndexedDispatch(n, tag, Stream(body + "\n" + r, false), w) ==
      (if IsVertexRecord(tag, VertexPart(w)) then Stream("\n" + r, false) else Stream(r, false), w1, None)
    ensures ReadAllIndexed(n, Stream(line + "\n" + r, false), w) == ReadAllIndexed(n, Stream(r, false), w1)
  {
    if IsVertexRecord(tag, VertexPart(w)) {
      ReadAllIndexedSpace(n, "\n", r, w1);
    }
  }

  lemma SplitAt(vs: seq<Token>, k: nat)
    requires k <= |vs|
    ensures vs[..k] + vs[k..] == vs
  {
  }

  /** The vertex lines of a tag, g records of its values; first reader. */
  lemma {:induction false} ReadSection(tag: string, vs: seq<Token>, g: nat, r: string, b: Buffers)
    requires VertexTag(tag) && Words(vs) && |vs| == Arity(tag) * g
    ensures ReadAll(Stream(Unlines(Records(tag, Arity(tag), vs)) + r, false), b)
         == ReadAll(Stream(r, false), ReadTag(tag, b, vs))
    decreases g
  {
    var k := Arity(tag);
    if g == 0 {
      NoRecords(tag, k, vs, g, r);
      ReadTagNone(tag, b);
    } else {
      var h: nat := g - 1;
      FirstRecord(tag, vs, g, h, r, b);
      var group, more := vs[..k], vs[k..];
      ReadSection(tag, more, h, r, ReadTag(tag, b, group));
      ReadTagAppend(tag, b, group, more);
      SplitAt(vs, k);
    }
  }

  /** No groups of values make no lines. */
  lemma NoRecords(tag: string, k: nat, vs: seq<Token>, g: nat, r: string)
    requires k > 0 && g == 0 && |vs| == k * g
    ensures vs == [] && Unlines(Records(tag, k, vs)) + r == r
  {
    assert |vs| == 0;
  }

  /** The first of g vertex lines, read by the first reader, and the lines
      after it, which are g - 1 vertex lines of the values after them. */
  lemma FirstRecord(tag: string, vs: seq<Token>, g: nat, h: nat, r: string, b: Buffers)
    requires VertexTag(tag) && Words(vs) && |vs| == Arity(tag) * g && g == h + 1
    ensures Arity(tag) <= |vs| && |vs[Arity(tag)..]| == Arity(tag) * h && Words(vs[Arity(tag)..])
    ensures ReadAll(Stream(Unlines(Records(tag, Arity(tag), vs)) + r, false), b)
         == ReadAll(Stream(Unlines(Records(tag, Arity(tag), vs[Arity(tag)..])) + r, false), ReadTag(tag, b, vs[..Arity(tag)]))
  {
    var k := Arity(tag);
    RecordsSplit(tag, k, g, h, vs, r);
    WordsSplit(vs, k);
    ReadAllLine(tag, vs[..k], Unlines(Records(tag, k, vs[k..])) + r, b);
  }

  /** Same for the indexed reader. */
  lemma {:induction false} ReadSectionIndexed(n: nat, tag: string, vs: seq<Token>, g: nat, r: string, w: IndexedBuffers)
    requires VertexTag(tag) && Words(vs) && |vs| == Arity(tag) * g
    ensures ReadAllIndexed(n, Stream(Unlines(Records(tag, Arity(tag), vs)) + r, false), w)
         == ReadAllIndexed(n, Stream(r, false), WithVertices(w, ReadTag(tag, VertexPart(w), vs)))
    decreases g
  {
    var k := Arity(tag);
    if g == 0 {
      NoRecords(tag, k, vs, g, r);
      ReadTagNone(tag, VertexPart(w));
      assert WithVertices(w, VertexPart(w)) == w;
    } else {
      var h: nat := g - 1;
      FirstRecordIndexed(n, tag, vs, g, h, r, w);
      var group, more := vs[..k], vs[k..];
      var w' := WithVertices(w, ReadTag(tag, VertexPart(w), group));
      ReadSectionIndexed(n, tag, more, h, r, w');
      ReadTagAppend(tag, VertexPart(w), group, more);
      SplitAt(vs, k);
      assert VertexPart(w') == ReadTag(tag, VertexPart(w), group);
    }
  }

  /** FirstRecord for the indexed reader. */
  lemma FirstRecordIndexed(n: nat, tag: string, vs: seq<Token>, g: nat, h: nat, r: string, w: IndexedBuffers)
    requires VertexTag(tag) && Words(vs) && |vs| == Arity(tag) * g && g == h + 1
    ensures Arity(tag) <= |vs| && |vs[Arity(tag)..]| == Arity(tag) * h && Words(vs[Arity(tag)..])
    ensures ReadAllIndexed(n, Stream(Unlines(Records(tag, Arity(tag), vs)) + r, false), w)
         == ReadAllIndexed(n, Stream(Unlines(Records(tag, Arity(tag), vs[Arity(tag)..])) + r, false),
                           WithVertices(w, ReadTag(tag, VertexPart(w), vs[..Arity(tag)])))
  {
    var k := Arity(tag);
    RecordsSplit(tag, k, g, h, vs, r);
    WordsSplit(vs, k);
    ReadAllIndexedLine(n, tag, vs[..k], Unlines(Records(tag, k, vs[k..])) + r, w);
  }

  /** The lines the writer emits for a buffer it may or may not have. */
  function Section(tag: string, vs: Option<seq<Token>>): seq<string>
    requires VertexTag(tag)
  {
    if vs.Some? then Records(tag, Arity(tag), vs.value) else []
  }

  function ReadOptional(tag: string, b: Buffers, vs: Option<seq<Token>>): (r: Buffers)
    ensures r.texcoords.Some? == b.texcoords.Some? && r.normals.Some? == b.normals.Some?
  {
    if vs.Some? then ReadTag(tag, b, vs.value) else b
  }

  /** A buffer of whole records of words. */
  predicate WholeWords(tag: string, vs: Option<seq<Token>>) {
    vs.Some? ==> Words(vs.value) && |vs.value| % Arity(tag) == 0
  }

  lemma SectionGroups(tag: string, vs: seq<Token>) returns (g: nat)
    requires VertexTag(tag) && |vs| % Arity(tag) == 0
    ensures |vs| == Arity(tag) * g
  {
    g := |Records(tag, Arity(tag), vs)|;
    RecordsCount(tag, Arity(tag), vs);
    WholeGroups(Arity(tag), |vs|, g);
  }

  lemma ReadOptionalSection(tag: string, vs: Option<seq<Token>>, r: string, b: Buffers)
    requires VertexTag(tag) && WholeWords(tag, vs)
    ensures ReadAll(Stream(Unlines(Section(tag, vs)) + r, false), b) == ReadAll(Stream(r, false), ReadOptional(tag, b, vs))
  {
    if vs.Some? {
      var g := SectionGroups(tag, vs.value);
      ReadSection(tag, vs.value, g, r, b);
    } else {
      assert Unlines(Section(tag, vs)) + r == r;
    }
  }

  lemma ReadOptionalSectionIndexed(n: nat, tag: string, vs: Option<seq<Token>>, r: string, w: IndexedBuffers)
    requires VertexTag(tag) && WholeWords(tag, vs)
    ensures ReadAllIndexed(n, Stream(Unlines(Section(tag, vs)) + r, false), w)
         == ReadAllIndexed(n, Stream(r, false), WithVertices(w, ReadOptional(tag, VertexPart(w), vs)))
  {
    if vs.Some? {
      var g := SectionGroups(tag, vs.value);
      ReadSectionIndexed(n, tag, vs.value, g, r, w);
    } else {
      assert Unlines(Section(tag, vs)) + r == r;
      assert WithVertices(w, VertexPart(w)) == w;
    }
  }

  /** What the reader's buffers become when it reads the vertex lines of b:
      every position appended, the texture coordinates and normals appended
      where both the writer and the reader have a buffer for them. */
  function ReadBack(r: Buffers, b: Buffers): (res: Buffers)
    ensures res.texcoords.Some? == r.texcoords.Some? && res.normals.Some? == r.normals.Some?
  {
    Buffers(
      r.positions + b.positions,
      if r.texcoords.Some? && b.texcoords.Some? then Some(r.texcoords.value + b.texcoords.value) else r.texcoords,
      if r.normals.Some? && b.normals.Some? then Some(r.normals.value + b.normals.value) else r.normals)
  }

  /** The vertex lines split into their three blocks. */
  lemma VertexBlocks(b: Buffers, r: string)
    requires SizesValid(b)
    ensures Unlines(VertexLines(b)) + r
         == Unlines(Section("v", Some(b.positions))) + (Unlines(Section("vt", b.texcoords)) + (Unlines(Section("vn", b.normals)) + r))
  {
    var lv, lt, ln := Section("v", Some(b.positions)), Section("vt", b.texcoords), Section("vn", b.normals);
    assert VertexLines(b) == lv + lt + ln;
    UnlinesAppend(lv + lt, ln);
    UnlinesAppend(lv, lt);
    Nest(Unlines(lv), Unlines(lt), Unlines(ln), r);
  }

  /** ReadBack is the three blocks read one after the other. */
  lemma ReadBackBlocks(b: Buffers, res: Buffers)
    ensures ReadBack(res, b)
         == ReadOptional("vn", ReadOptional("vt", ReadOptional("v", res, Some(b.positions)), b.texcoords), b.normals)
  {
  }

  lemma VertexSection(b: Buffers, r: string, res: Buffers)
    requires SizesValid(b) && WordBuffers(b)
    ensures ReadAll(Stream(Unlines(VertexLines(b)) + r, false), res) == ReadAll(Stream(r, false), ReadBack(res, b))
  {
    VertexBlocks(b, r);
    ReadBackBlocks(b, res);
    var rn := Unlines(Section("vn", b.normals)) + r;
    var rt := Unlines(Section("vt", b.texcoords)) + rn;
    ReadOptionalSection("v", Some(b.positions), rt, res);
    var res1 := ReadOptional("v", res, Some(b.positions));
    ReadOptionalSection("vt", b.texcoords, rn, res1);
    ReadOptionalSection("vn", b.normals, r, ReadOptional("vt", res1, b.texcoords));
  }

  lemma VertexSectionIndexed(n: nat, b: Buffers, r: string, w: IndexedBuffers)
    requires SizesValid(b) && WordBuffers(b)
    ensures ReadAllIndexed(n, Stream(Unlines(VertexLines(b)) + r, false), w)
         == ReadAllIndexed(n, Stream(r, false), WithVertices(w, ReadBack(VertexPart(w), b)))
  {
    VertexBlocks(b, r);
    ReadBackBlocks(b, VertexPart(w));
    var rn := Unlines(Section("vn", b.normals)) + r;
    var rt := Unlines(Section("vt", b.texcoords)) + rn;
    ReadOptionalSectionIndexed(n, "v", Some(b.positions), rt, w);
    var w1 := WithVertices(w, ReadOptional("v", VertexPart(w), Some(b.positions)));
    ReadOptionalSectionIndexed(n, "vt", b.texcoords, rn, w1);
    var w2 := WithVertices(w1, ReadOptional("vt", VertexPart(w1), b.texcoords));
    ReadOptionalSectionIndexed(n, "vn", b.normals, r, w2);
  }

  // ---------------------------------------------------------------------
  // The first overload

  lemma ReadAllEnd(b: Buffers)
    ensures ReadAll(Stream([], false), b) == b
  {
    ReadWordAtEnd([]);
  }

  /** `read_obj` on what `write_obj` wrote appends the written buffers to
      the reader's, where the reader has a buffer for them. */
  lemma WriteThenRead(b: Buffers, res: Buffers)
    requires SizesValid(b) && WordBuffers(b)
    ensures ReadAll(Stream(Unlines([Header] + VertexLines(b)), false), res) == ReadBack(res, b)
  {
    UnlinesFront(Header, VertexLines(b));
    var text := Unlines(VertexLines(b));
    assert Unlines([Header] + VertexLines(b)) == Header + "\n" + text;
    HeaderThen(text, res);
    NoRest(text);
    VertexSection(b, [], res);
    ReadAllEnd(ReadBack(res, b));
  }

  /** The header comment is skipped. */
  lemma HeaderThen(text: string, res: Buffers)
    ensures ReadAll(Stream(Header + "\n" + text, false), res) == ReadAll(Stream(text, false), res)
  {
    HeaderLine(text);
    CommentThen(Header, HeaderComment, text, res);
  }

  /** A comment line, whose first word is "#", is skipped. */
  lemma CommentThen(line: string, comment: string, text: string, res: Buffers)
    requires ReadWord(Stream(line + "\n" + text, false)) == ("#", Stream(comment + "\n" + text, false))
    requires GetLine(Stream(comment + "\n" + text, false)) == (comment, Stream(text, false))
    ensures ReadAll(Stream(line + "\n" + text, false), res) == ReadAll(Stream(text, false), res)
  {
    SkipLine(Stream(line + "\n" + text, false), "#", Stream(comment + "\n" + text, false), Stream(text, false), res);
  }

  /** A line whose first word is not a vertex specifier the reader is
      collecting (a comment, a face, a "vt" or "vn" line whose buffer was
      not asked for, any other word) is skipped: the rest of the line is
      dropped and the buffers do not change. */
  lemma SkipLine(st: Stream, specifier: string, st1: Stream, st2: Stream, res: Buffers)
    requires !st.eof && ReadWord(st) == (specifier, st1) && !IsVertexRecord(specifier, res)
    requires GetLine(st1).1 == st2
    ensures ReadAll(st, res) == ReadAll(st2, res)
  {
    assert Dispatch(specifier, st1, res) == (st2, res);
  }

  /** Empty buffers of the same kinds as those of b. */
  function EmptyLike(b: Buffers): Buffers {
    Buffers([], if b.texcoords.Some? then Some([]) else None, if b.normals.Some? then Some([]) else None)
  }

  /** Read into empty buffers of the same kinds, the file gives back the
      buffers written. */
  lemma RoundTrip(b: Buffers)
    requires SizesValid(b) && WordBuffers(b)
    ensures ReadAll(Stream(Unlines([Header] + VertexLines(b)), false), EmptyLike(b)) == b
  {
    WriteThenRead(b, EmptyLike(b));
    ReadBackEmpty(b);
  }

  lemma ReadBackEmpty(b: Buffers)
    ensures ReadBack(EmptyLike(b), b) == b
  {
    PrefixEmpty(b.positions);
    if b.texcoords.Some? {
      PrefixEmpty(b.texcoords.value);
    }
    if b.normals.Some? {
      PrefixEmpty(b.normals.value);
    }
  }

  lemma PrefixEmpty<T>(s: seq<T>)
    ensures [] + s == s
  {
  }

  // ---------------------------------------------------------------------
  // Faces

  lemma NoSpaceAppend(a: string, b: string)
    requires NoSpace(a) && NoSpace(b)
    ensures NoSpace(a + b)
  {
    forall i | 0 <= i < |a + b|
      ensures !IsSpace((a + b)[i])
    {
      if i < |a| {
        assert (a + b)[i] == a[i];
      } else {
        assert (a + b)[i] == b[i - |a|];
      }
    }
  }

  /** The text of a face corner is a word. */
  lemma CornerTokenWord(w: IndexedBuffers, c: nat)
    requires IndicesCompatible(w) && c < |w.pindices|
    ensures IsWord(CornerToken(w, c))
  {
    var p := ShowInt(w.pindices[c] + 1);
    ShowIntChars(w.pindices[c] + 1);
    assert NoSpace("/") && NoSpace("//");
    if w.tindices.Some? {
      var t := ShowInt(w.tindices.value[c] + 1);
      ShowIntChars(w.tindices.value[c] + 1);
      NoSpaceAppend(p, "/");
      NoSpaceAppend(p + "/", t);
      if w.nindices.Some? {
        ShowIntChars(w.nindices.value[c] + 1);
        NoSpaceAppend(p + "/" + t, "/");
        NoSpaceAppend(p + "/" + t + "/", ShowInt(w.nindices.value[c] + 1));
      }
    }
    if w.nindices.Some? {
      ShowIntChars(w.nindices.value[c] + 1);
      NoSpaceAppend(p, "//");
      NoSpaceAppend(p + "//", ShowInt(w.nindices.value[c] + 1));
    }
  }

  /** The corners from lo to hi appended to the reader's index buffers: the
      texture indices if the reader has a buffer for them and the writer
      wrote them, the normal indices likewise. */
  function AddCorners(r: IndexedBuffers, w: IndexedBuffers, lo: nat, hi: nat): (res: IndexedBuffers)
    requires IndicesCompatible(w) && lo <= hi <= |w.pindices|
    ensures VertexPart(res) == VertexPart(r)
    ensures res.tindices.Some? == r.tindices.Some? && res.nindices.Some? == r.nindices.Some?
  {
    r.(pindices := r.pindices + w.pindices[lo..hi],
       tindices := if r.tindices.Some? && TexturedFaces(w) then Some(r.tindices.value + w.tindices.value[lo..hi]) else r.tindices,
       nindices := if r.nindices.Some? && NormalFaces(w) then Some(r.nindices.value + w.nindices.value[lo..hi]) else r.nindices)
  }

  lemma AddCornersNone(r: IndexedBuffers, w: IndexedBuffers, lo: nat)
    requires IndicesCompatible(w) && lo <= |w.pindices|
    ensures AddCorners(r, w, lo, lo) == r
  {
    assert w.pindices[lo..lo] == [] && r.pindices + [] == r.pindices;
    if r.tindices.Some? && TexturedFaces(w) {
      assert w.tindices.value[lo..lo] == [] && r.tindices.value + [] == r.tindices.value;
    }
    if r.nindices.Some? && NormalFaces(w) {
      assert w.nindices.value[lo..lo] == [] && r.nindices.value + [] == r.nindices.value;
    }
  }

  /** One corner's indices appended. */
  lemma AddOneCorner(r: IndexedBuffers, w: IndexedBuffers, c: nat)
    requires IndicesCompatible(w) && c < |w.pindices|
    ensures AddCorners(r, w, c, c + 1) == r.(
      pindices := r.pindices + [w.pindices[c]],
      tindices := if r.tindices.Some? && TexturedFaces(w) then Some(r.tindices.value + [w.tindices.value[c]]) else r.tindices,
      nindices := if r.nindices.Some? && NormalFaces(w) then Some(r.nindices.value + [w.nindices.value[c]]) else r.nindices)
  {
    assert w.pindices[c..c + 1] == [w.pindices[c]];
    if w.tindices.Some? {
      assert w.tindices.value[c..c + 1] == [w.tindices.value[c]];
    }
    if w.nindices.Some? {
      assert w.nindices.value[c..c + 1] == [w.nindices.value[c]];
    }
  }

  /** How many slash-separated parts the writer prints per corner. */
  function PartCount(w: IndexedBuffers): nat {
    if NormalFaces(w) then 3 else if TexturedFaces(w) then 2 else 1
  }

  /** The parts of a corner text name corner c of w, one-based: the
      position index, the texture index where there is one and the normal
      index where there is one. */
  predicate PartsOf(idx: seq<string>, w: IndexedBuffers, c: nat)
    requires IndicesCompatible(w) && c < |w.pindices|
  {
    && |idx| == PartCount(w)
    && Stoi(idx[0]) == Some(w.pindices[c] + 1)
    && (|idx| >= 2 && TexturedFaces(w) ==> Stoi(idx[1]) == Some(w.tindices.value[c] + 1))
    && (|idx| == 3 ==> Stoi(idx[2]) == Some(w.nindices.value[c] + 1))
  }

  /** The parts the writer prints name the corner. */
  lemma CornerPartsOf(w: IndexedBuffers, c: nat)
    requires IndicesCompatible(w) && c < |w.pindices|
    ensures PartsOf(CornerParts(w, c), w, c)
  {
    var idx := CornerParts(w, c);
    var p := w.pindices[c] + 1;
    assert idx[0] == ShowInt(p);
    ShownPart(idx[0], p);
    if TexturedFaces(w) {
      var t := w.tindices.value[c] + 1;
      assert idx[1] == ShowInt(t);
      ShownPart(idx[1], t);
    }
    if NormalFaces(w) {
      var v := w.nindices.value[c] + 1;
      assert idx[2] == ShowInt(v);
      ShownPart(idx[2], v);
    }
  }

  lemma ShownPart(part: string, i: int)
    requires part == ShowInt(i)
    ensures Stoi(part) == Some(i)
  {
    StoiShowInt(i);
  }

  lemma Concat(x: seq<int>, s: seq<int>, a: nat, b: nat, c: nat)
    requires a <= b <= c <= |s|
    ensures x + s[a..b] + s[b..c] == x + s[a..c]
  {
    assert s[a..b] + s[b..c] == s[a..c];
  }

  lemma AddCornersAppend(r: IndexedBuffers, w: IndexedBuffers, a: nat, b: nat, c: nat)
    requires IndicesCompatible(w) && a <= b <= c <= |w.pindices|
    ensures AddCorners(AddCorners(r, w, a, b), w, b, c) == AddCorners(r, w, a, c)
  {
    Concat(r.pindices, w.pindices, a, b, c);
    if r.tindices.Some? && TexturedFaces(w) {
      Concat(r.tindices.value, w.tindices.value, a, b, c);
    }
    if r.nindices.Some? && NormalFaces(w) {
      Concat(r.nindices.value, w.nindices.value, a, b, c);
    }
  }

  /** A corner splits back into its parts. */
  lemma CornerSplit(w: IndexedBuffers, c: nat)
    requires IndicesCompatible(w) && c < |w.pindices|
    ensures Split(CornerToken(w, c), '/', 0) == CornerParts(w, c)
  {
    var token := CornerToken(w, c);
    CornerPartsChars(w, c);
    FieldsOfJoin(CornerParts(w, c), '/');
    CornerTokenWord(w, c);
    assert token[0..] == token;
  }

  /** A text whose parts name corner c reads back as that corner, provided
      the reader does not ask for the texture index of a p//n corner (a
      plain p corner stores only its position index, whatever buffers the
      reader has). */
  lemma ReadCornerOf(face: string, w: IndexedBuffers, c: nat, r: IndexedBuffers)
    requires IndicesCompatible(w) && c < |w.pindices| && PartsOf(Split(face, '/', 0), w, c)
    requires r.tindices.Some? ==> TexturedFaces(w) || !NormalFaces(w)
    ensures ParseCorner(face, r) == (AddCorners(r, w, c, c + 1), None)
  {
    AddOneCorner(r, w, c);
  }

  /** A corner written as p//n, read by a reader with a texture index
      buffer: the empty texture part makes `std::stoi` throw, after the
      position index is stored. */
  lemma ReadCornerWithoutTexture(w: IndexedBuffers, c: nat, r: IndexedBuffers)
    requires IndicesCompatible(w) && c < |w.pindices|
    requires !TexturedFaces(w) && NormalFaces(w) && r.tindices.Some?
    ensures ParseCorner(CornerToken(w, c), r) == (r.(pindices := r.pindices + [w.pindices[c]]), Some(InvalidIndex))
  {
    CornerSplit(w, c);
    var p := w.pindices[c];
    StoiShowInt(p + 1);
    EmptyTexturePart(CornerToken(w, c), CornerParts(w, c), p, r);
  }

  /** A corner whose second part is empty, read by a reader with a texture
      index buffer. */
  lemma EmptyTexturePart(face: string, parts: seq<string>, p: int, r: IndexedBuffers)
    requires Split(face, '/', 0) == parts && |parts| >= 2 && Stoi(parts[0]) == Some(p + 1) && parts[1] == []
    requires r.tindices.Some?
    ensures ParseCorner(face, r) == (r.(pindices := r.pindices + [p]), Some(InvalidIndex))
  {
    assert Stoi(parts[1]) == None;
  }

  /** Each of the texts splits into the parts of the corner it stands
      for, counting from lo. */
  ghost predicate CornerTexts(cs: seq<string>, w: IndexedBuffers, lo: nat)
    requires IndicesCompatible(w) && lo + |cs| <= |w.pindices|
  {
    forall j :: 0 <= j < |cs| ==> PartsOf(Split(cs[j], '/', 0), w, lo + j)
  }

  lemma CornerTextsOf(w: IndexedBuffers, lo: nat, m: nat)
    requires IndicesCompatible(w) && lo + m <= |w.pindices|
    ensures CornerTexts(Corners(w, lo, m), w, lo)
  {
    forall j | 0 <= j < m
      ensures PartsOf(Split(Corners(w, lo, m)[j], '/', 0), w, lo + j)
    {
      assert Corners(w, lo, m)[j] == CornerToken(w, lo + j);
      CornerSplit(w, lo + j);
      CornerPartsOf(w, lo + j);
    }
  }

  /** The texts from k on of texts that stand for the corners from lo on
      stand for the corners from lo + k on. */
  lemma CornerTextsDrop(cs: seq<string>, w: IndexedBuffers, lo: nat, k: nat, m: nat, at: nat)
    requires IndicesCompatible(w) && lo + |cs| <= |w.pindices| && CornerTexts(cs, w, lo)
    requires k <= m <= |cs| && at == lo + k
    ensures CornerTexts(cs[k..m], w, at)
  {
    forall j | 0 <= j < m - k
      ensures PartsOf(Split(cs[k..m][j], '/', 0), w, at + j)
    {
      var t := k + j;
      assert cs[k..m][j] == cs[t] && at + j == lo + t;
      assert PartsOf(Split(cs[t], '/', 0), w, lo + t);
    }
  }

  /** CornerTexts, one text at a time from the front. */
  ghost predicate CornerList(cs: seq<string>, w: IndexedBuffers, lo: nat)
    requires IndicesCompatible(w) && lo + |cs| <= |w.pindices|
    decreases |cs|
  {
    cs == [] || (PartsOf(Split(cs[0], '/', 0), w, lo) && CornerList(cs[1..], w, lo + 1))
  }

  lemma {:induction false} CornerListOf(cs: seq<string>, w: IndexedBuffers, lo: nat)
    requires IndicesCompatible(w) && lo + |cs| <= |w.pindices| && CornerTexts(cs, w, lo)
    ensures CornerList(cs, w, lo)
    decreases |cs|
  {
    if cs != [] {
      CornerTextsDrop(cs, w, lo, 1, |cs|, lo + 1);
      CornerListOf(cs[1..], w, lo + 1);
    }
  }

  /** Corner texts read back in order: those for the corners from lo to
      hi. */
  lemma {:induction false} ReadCornersOf(cs: seq<string>, w: IndexedBuffers, lo: nat, hi: nat, r: IndexedBuffers)
    requires IndicesCompatible(w) && hi == lo + |cs| && hi <= |w.pindices| && CornerList(cs, w, lo)
    requires r.tindices.Some? ==> TexturedFaces(w) || !NormalFaces(w)
    ensures ParseCorners(cs, r) == (AddCorners(r, w, lo, hi), None)
    decreases |cs|
  {
    if cs == [] {
      AddCornersNone(r, w, lo);
    } else {
      var r1 := AddCorners(r, w, lo, lo + 1);
      ReadCornerOf(cs[0], w, lo, r);
      ParseCornersFront(cs, r);
      ReadCornersOf(cs[1..], w, lo + 1, hi, r1);
      AddCornersAppend(r, w, lo, lo + 1, hi);
    }
  }

  lemma ParseCornersFront(faces: seq<string>, r: IndexedBuffers)
    requires faces != [] && ParseCorner(faces[0], r).1 == None
    ensures ParseCorners(faces, r) == ParseCorners(faces[1..], ParseCorner(faces[0], r).0)
  {
  }

  lemma {:induction false} JoinLength(fs: seq<string>, d: char)
    requires |fs| >= 1
    ensures |Join(fs, d)| >= |fs[0]|
  {
    if |fs| > 1 {
      JoinLength(fs[..|fs| - 1], d);
    }
  }

  /** The rest of a face line splits back into its corners. */
  lemma FaceSplit(face: seq<string>)
    requires |face| >= 1 && Words(face)
    ensures Split(Spaced(face), ' ', 1) == face
  {
    SpacedJoin(face);
    var j := Join(face, ' ');
    assert Spaced(face)[1..] == j;
    JoinLength(face, ' ');
    assert IsWord(face[0]);
    forall k | 0 <= k < |face|
      ensures ' ' !in face[k]
    {
      assert IsWord(face[k]);
    }
    FieldsOfJoin(face, ' ');
  }

  lemma CornersWords(w: IndexedBuffers, lo: nat, m: nat)
    requires IndicesCompatible(w) && lo + m <= |w.pindices|
    ensures Words(Corners(w, lo, m))
  {
    forall j | 0 <= j < m
      ensures IsWord(Corners(w, lo, m)[j])
    {
      CornerTokenWord(w, lo + j);
    }
  }

  /** A face line made of texts that stand for the n corners from lo on
      reads back as those corners. */
  lemma ReadFaceLine(n: nat, w: IndexedBuffers, face: seq<string>, lo: nat, hi: nat, rest: string, r: IndexedBuffers)
    requires n >= 1 && IndicesCompatible(w) && |face| == n && hi == lo + n && hi <= |w.pindices|
    requires Words(face) && CornerList(face, w, lo)
    requires r.tindices.Some? ==> TexturedFaces(w) || !NormalFaces(w)
    ensures ReadAllIndexed(n, Stream(Record("f", face) + "\n" + rest, false), r)
         == ReadAllIndexed(n, Stream(rest, false), AddCorners(r, w, lo, hi))
  {
    RecordTag("f", face, rest);
    ReadCornersOf(face, w, lo, hi, r);
    FaceRecordOf(n, face, rest, r, AddCorners(r, w, lo, hi));
  }

  /** The rest of a face line whose corners read back as res. */
  lemma FaceRecordOf(n: nat, face: seq<string>, rest: string, r: IndexedBuffers, res: IndexedBuffers)
    requires |face| == n >= 1 && Words(face) && ParseCorners(face, r) == (res, None)
    ensures IndexedDispatch(n, "f", Stream(Spaced(face) + "\n" + rest, false), r) == (Stream(rest, false), res, None)
  {
    RecordValues(face, rest);
    FaceSplit(face);
  }

  /** The texts before k and the texts from k on. */
  lemma {:induction false} CornerListSplit(cs: seq<string>, w: IndexedBuffers, lo: nat, k: nat, at: nat)
    requires IndicesCompatible(w) && lo + |cs| <= |w.pindices| && CornerList(cs, w, lo)
    requires k <= |cs| && at == lo + k
    ensures CornerList(cs[..k], w, lo) && CornerList(cs[k..], w, at)
    decreases k
  {
    if k == 0 {
      assert cs[..0] == [] && cs[0..] == cs;
    } else {
      CornerListSplit(cs[1..], w, lo + 1, k - 1, at);
      SliceAfterFirst(cs, k);
    }
  }

  lemma SliceAfterFirst(cs: seq<string>, k: nat)
    requires 1 <= k <= |cs|
    ensures cs[..k][0] == cs[0] && cs[..k][1..] == cs[1..][..k - 1] && cs[k..] == cs[1..][k - 1..]
  {
  }

  lemma WordsSplit(vs: seq<Token>, k: nat)
    requires Words(vs) && k <= |vs|
    ensures Words(vs[..k]) && Words(vs[k..])
  {
    forall i | 0 <= i < k ensures IsWord(vs[..k][i]) {
      assert vs[..k][i] == vs[i];
    }
    forall i | 0 <= i < |vs| - k ensures IsWord(vs[k..][i]) {
      assert vs[k..][i] == vs[k + i];
    }
  }

  /** f face lines whose texts stand for the corners from lo to hi read
      back as those corners. */
  lemma {:induction false} ReadFaces(n: nat, w: IndexedBuffers, cs: seq<string>, lo: nat, hi: nat, f: nat, rest: string, r: IndexedBuffers)
    requires n >= 1
    requires IndicesCompatible(w)
    requires hi == lo + |cs|
    requires hi <= |w.pindices|
    requires Words(cs)
    requires CornerList(cs, w, lo)
    requires |cs| == n * f
    requires r.tindices.Some? ==> TexturedFaces(w) || !NormalFaces(w)
    ensures ReadAllIndexed(n, Stream(Unlines(Records("f", n, cs)) + rest, false), r)
         == ReadAllIndexed(n, Stream(rest, false), AddCorners(r, w, lo, hi))
    decreases f
  {
    if f == 0 {
      NoFaces(n, w, cs, lo, hi, f, rest, r);
    } else {
      var g: nat := f - 1;
      var mid := lo + n;
      FirstFace(n, w, cs, lo, mid, hi, f, g, rest, r);
      var r1 := AddCorners(r, w, lo, mid);
      ReadFaces(n, w, cs[n..], mid, hi, g, rest, r1);
      AddCornersAppend(r, w, lo, mid, hi);
      assert ReadAllIndexed(n, Stream(Unlines(Records("f", n, cs)) + rest, false), r)
         == ReadAllIndexed(n, Stream(rest, false), AddCorners(r, w, lo, hi));
    }
  }

  /** No face lines read back as no corners. */
  lemma NoFaces(n: nat, w: IndexedBuffers, cs: seq<string>, lo: nat, hi: nat, f: nat, rest: string, r: IndexedBuffers)
    requires n >= 1 && IndicesCompatible(w) && hi == lo + |cs| && hi <= |w.pindices| && |cs| == n * f && f == 0
    ensures ReadAllIndexed(n, Stream(Unlines(Records("f", n, cs)) + rest, false), r)
         == ReadAllIndexed(n, Stream(rest, false), AddCorners(r, w, lo, hi))
  {
    assert cs == [] by {
      assert n * f == 0;
    }
    assert Unlines(Records("f", n, cs)) + rest == rest;
    AddCornersNone(r, w, lo);
  }

  /** The first of f face lines reads back as its n corners, and the
      lines after it are f - 1 face lines of the corners after them. */
  lemma FirstFace(n: nat, w: IndexedBuffers, cs: seq<string>, lo: nat, mid: nat, hi: nat, f: nat, g: nat, rest: string, r: IndexedBuffers)
    requires n >= 1 && IndicesCompatible(w) && hi == lo + |cs| && hi <= |w.pindices|
    requires Words(cs) && CornerList(cs, w, lo) && |cs| == n * f && f == g + 1 && mid == lo + n
    requires r.tindices.Some? ==> TexturedFaces(w) || !NormalFaces(w)
    ensures n <= |cs| && hi == mid + |cs[n..]| && |cs[n..]| == n * g
    ensures Words(cs[n..]) && CornerList(cs[n..], w, mid)
    ensures AddCorners(r, w, lo, mid).tindices.Some? ==> TexturedFaces(w) || !NormalFaces(w)
    ensures ReadAllIndexed(n, Stream(Unlines(Records("f", n, cs)) + rest, false), r)
         == ReadAllIndexed(n, Stream(Unlines(Records("f", n, cs[n..])) + rest, false), AddCorners(r, w, lo, mid))
  {
    RecordsSplit("f", n, f, g, cs, rest);
    var more := Unlines(Records("f", n, cs[n..])) + rest;
    CornerListSplit(cs, w, lo, n, mid);
    WordsSplit(cs, n);
    ReadFaceLine(n, w, cs[..n], lo, mid, more, r);
  }

  // ---------------------------------------------------------------------
  // The indexed overload

  lemma ReadAllIndexedEnd(n: nat, w: IndexedBuffers)
    ensures ReadAllIndexed(n, Stream([], false), w) == (w, None)
  {
    ReadWordAtEnd([]);
  }

  /** What the indexed reader's buffers become when it reads what the
      indexed writer wrote: the vertex buffers as ReadBack says, then every
      position index, and the texture and normal indices where the reader
      has a buffer for them and the writer wrote them. */
  function IndexedReadBack(r: IndexedBuffers, w: IndexedBuffers): IndexedBuffers
    requires IndicesCompatible(w)
  {
    AddCorners(WithVertices(r, ReadBack(VertexPart(r), VertexBuffers(w))), w, 0, |w.pindices|)
  }

  /** The file names the position indices and, where present, the texture
      and normal indices and buffers of w; the vertex and face sections. */
  lemma IndexedBlocks(n: nat, w: IndexedBuffers)
    requires n >= 1 && SizesValid(VertexBuffers(w)) && IndicesCompatible(w) && |w.pindices| % n == 0
    ensures Unlines(IndexedObjLines(n, w))
         == Header + "\n" + (Unlines(VertexLines(VertexBuffers(w))) + Unlines(FaceLines(n, w)))
  {
    var vl, fl := VertexLines(VertexBuffers(w)), FaceLines(n, w);
    UnlinesAppend([Header] + vl, fl);
    UnlinesFront(Header, vl);
  }

  /** The indexed `read_obj` on what the indexed `write_obj` wrote. */
  lemma WriteThenReadIndexed(n: nat, w: IndexedBuffers, r: IndexedBuffers)
    requires n >= 1 && SizesValid(VertexBuffers(w)) && IndicesCompatible(w) && |w.pindices| % n == 0
    requires WordBuffers(VertexBuffers(w))
    requires r.tindices.Some? ==> TexturedFaces(w) || !NormalFaces(w)
    ensures ReadAllIndexed(n, Stream(Unlines(IndexedObjLines(n, w)), false), r) == (IndexedReadBack(r, w), None)
  {
    var vl, fl := VertexLines(VertexBuffers(w)), FaceLines(n, w);
    IndexedBlocks(n, w);
    HeaderLine(Unlines(vl) + Unlines(fl));
    VertexSectionIndexed(n, VertexBuffers(w), Unlines(fl), r);
    var r1 := WithVertices(r, ReadBack(VertexPart(r), VertexBuffers(w)));
    FacesSection(n, w, r1);
    ReadAllIndexedEnd(n, IndexedReadBack(r, w));
  }

  /** The face lines of w read back as all the corners of w. */
  lemma FacesSection(n: nat, w: IndexedBuffers, r: IndexedBuffers)
    requires n >= 1 && IndicesCompatible(w) && |w.pindices| % n == 0
    requires r.tindices.Some? ==> TexturedFaces(w) || !NormalFaces(w)
    ensures ReadAllIndexed(n, Stream(Unlines(FaceLines(n, w)), false), r)
         == ReadAllIndexed(n, Stream([], false), AddCorners(r, w, 0, |w.pindices|))
  {
    var m := |w.pindices|;
    var corners := Corners(w, 0, m);
    var f := |FaceLines(n, w)|;
    CornerTextsOf(w, 0, m);
    CornerListOf(corners, w, 0);
    CornersWords(w, 0, m);
    NoRest(Unlines(FaceLines(n, w)));
    ReadFaces(n, w, corners, 0, m, f, [], r);
  }

  lemma NoRest(s: string)
    ensures s + [] == s
  {
  }

  /** Every index buffer comes with its vertex buffer. */
  predicate Consistent(w: IndexedBuffers) {
    && (w.tindices.Some? ==> w.texcoords.Some?)
    && (w.nindices.Some? ==> w.normals.Some?)
  }

  /** Empty buffers of the same kinds as those of w. */
  function EmptyLikeIndexed(w: IndexedBuffers): IndexedBuffers {
    IndexedBuffers([], [],
      if w.texcoords.Some? then Some([]) else None, if w.tindices.Some? then Some([]) else None,
      if w.normals.Some? then Some([]) else None, if w.nindices.Some? then Some([]) else None)
  }

  /** Read into empty buffers of the same kinds, the file gives back
      exactly the mesh written, in each of the forms p, p/t, p//n and
      p/t/n. */
  lemma RoundTripIndexed(n: nat, w: IndexedBuffers)
    requires n >= 1 && SizesValid(VertexBuffers(w)) && IndicesCompatible(w) && |w.pindices| % n == 0
    requires WordBuffers(VertexBuffers(w)) && Consistent(w)
    ensures ReadAllIndexed(n, Stream(Unlines(IndexedObjLines(n, w)), false), EmptyLikeIndexed(w)) == (w, None)
  {
    WriteThenReadIndexed(n, w, EmptyLikeIndexed(w));
    IndexedReadBackEmpty(w);
  }

  lemma IndexedReadBackEmpty(w: IndexedBuffers)
    requires IndicesCompatible(w) && Consistent(w)
    ensures IndexedReadBack(EmptyLikeIndexed(w), w) == w
  {
    var e := EmptyLikeIndexed(w);
    ReadBackEmpty(VertexBuffers(w));
    assert VertexPart(e) == EmptyLike(VertexBuffers(w));
    WholeSlice(w.pindices);
    if w.tindices.Some? {
      WholeSlice(w.tindices.value);
    }
    if w.nindices.Some? {
      WholeSlice(w.nindices.value);
    }
  }

  lemma WholeSlice<T>(s: seq<T>)
    ensures [] + s[0..|s|] == s
  {
  }
}
