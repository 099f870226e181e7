/** The text-level pieces the OBJ reader and writer rely on: the C locale's
    white space, words, `_impl::split` on a delimiter, decimal printing of
    integers and `std::stoi`. */
module ObjText {

  datatype Option<T> = None | Some(value: T)

  /** `std::isspace` in the C locale: space, \t, \n, \v, \f and \r. */
  predicate IsSpace(c: char) {
    c == ' ' || ('\t' <= c <= '\r')
  }

  /** A non-empty run of characters none of which is white space. */
  predicate IsWord(s: string) {
    |s| > 0 && forall i :: 0 <= i < |s| ==> !IsSpace(s[i])
  }

  predicate NoSpace(s: string) {
    forall i :: 0 <= i < |s| ==> !IsSpace(s[i])
  }

  /** The text left after leading white space is skipped. */
  function SkipSpace(s: string): (r: string)
    ensures |r| <= |s| && r == s[|s| - |r|..]
    ensures r != [] ==> !IsSpace(r[0])
  {
    if s != [] && IsSpace(s[0]) then SkipSpace(s[1..]) else s
  }

  /** Leading white space is skipped whatever it is made of. */
  lemma {:induction false} SkipSpacePrefix(pre: string, s: string)
    requires forall i :: 0 <= i < |pre| ==> IsSpace(pre[i])
    ensures SkipSpace(pre + s) == SkipSpace(s)
  {
    if pre != [] {
      assert (pre + s)[0] == pre[0] && IsSpace(pre[0]);
      assert (pre + s)[1..] == pre[1..] + s;
      SkipSpacePrefix(pre[1..], s);
    } else {
      assert pre + s == s;
    }
  }

  /** The longest prefix of s without white space, and what follows it. */
  function SplitWord(s: string): (r: (string, string))
    ensures s == r.0 + r.1
    ensures NoSpace(r.0)
    ensures r.1 == [] || IsSpace(r.1[0])
  {
    if s == [] || IsSpace(s[0]) then ([], s)
    else
      var t := SplitWord(s[1..]);
      assert s == [s[0]] + s[1..];
      ([s[0]] + t.0, t.1)
  }

  /** A word followed by white space or by nothing splits off as itself. */
  lemma {:induction false} SplitWordOf(w: string, r: string)
    requires NoSpace(w) && (r == [] || IsSpace(r[0]))
    ensures SplitWord(w + r) == (w, r)
  {
    if w != [] {
      assert (w + r)[0] == w[0] && !IsSpace(w[0]);
      assert (w + r)[1..] == w[1..] + r;
      SplitWordOf(w[1..], r);
      assert [w[0]] + w[1..] == w;
    } else {
      assert w + r == r;
    }
  }

  /** The position of the first line break of s, or |s| if there is none. */
  function LineBreak(s: string): (i: nat)
    ensures i <= |s|
    ensures forall k :: 0 <= k < i ==> s[k] != '\n'
    ensures i < |s| ==> s[i] == '\n'
  {
    if s == [] || s[0] == '\n' then 0 else 1 + LineBreak(s[1..])
  }

  lemma {:induction false} LineBreakOf(l: string, r: string)
    requires forall k :: 0 <= k < |l| ==> l[k] != '\n'
    ensures LineBreak(l + "\n" + r) == |l|
  {
    if l != [] {
      assert (l + "\n" + r)[1..] == l[1..] + "\n" + r;
      LineBreakOf(l[1..], r);
    }
  }

  // ---------------------------------------------------------------------
  // Splitting on a delimiter

  /** The fields of s between occurrences of d, empty fields included:
      one more field than there are delimiters. */
  function Fields(s: string, d: char): (r: seq<string>)
    ensures |r| >= 1
  {
    if s == [] then [[]]
    else
      var rest := Fields(s[1..], d);
      if s[0] == d then [[]] + rest else [[s[0]] + rest[0]] + rest[1..]
  }

  /** `_impl::split(s, d, offset)`: the fields of s after its first offset
      characters; nothing at all when no character is left. */
  function Split(s: string, d: char, offset: nat): seq<string> {
    if offset >= |s| then [] else Fields(s[offset..], d)
  }

  /** The fields fs written one after the other with d between them. */
  function Join(fs: seq<string>, d: char): string
    requires |fs| >= 1
  {
    if |fs| == 1 then fs[0] else Join(fs[..|fs| - 1], d) + [d] + fs[|fs| - 1]
  }

  /** A delimiter separates the fields before it from the fields after it. */
  lemma {:induction false} FieldsAppend(x: string, y: string, d: char)
    ensures Fields(x + [d] + y, d) == Fields(x, d) + Fields(y, d)
  {
    if x == [] {
      assert x + [d] + y == [d] + y;
      assert ([d] + y)[1..] == y;
    } else {
      var s := x + [d] + y;
      assert s[0] == x[0] && s[1..] == x[1..] + [d] + y;
      FieldsAppend(x[1..], y, d);
    }
  }

  /** Text without the delimiter is a single field. */
  lemma {:induction false} FieldsSingle(x: string, d: char)
    requires d !in x
    ensures Fields(x, d) == [x]
  {
    if x != [] {
      assert x[0] != d && d !in x[1..];
      FieldsSingle(x[1..], d);
      assert [x[0]] + x[1..] == x;
    }
  }

  /** Splitting undoes joining when no field holds the delimiter. */
  lemma {:induction false} FieldsOfJoin(fs: seq<string>, d: char)
    requires |fs| >= 1 && forall k :: 0 <= k < |fs| ==> d !in fs[k]
    ensures Fields(Join(fs, d), d) == fs
  {
    if |fs| == 1 {
      FieldsSingle(fs[0], d);
    } else {
      var init := fs[..|fs| - 1];
      FieldsOfJoin(init, d);
      FieldsAppend(Join(init, d), fs[|fs| - 1], d);
      FieldsSingle(fs[|fs| - 1], d);
      assert fs == init + [fs[|fs| - 1]];
    }
  }

  // ---------------------------------------------------------------------
  // Integers as decimal text

  predicate IsDigit(c: char) {
    '0' <= c <= '9'
  }

  function DigitChar(n: nat): (c: char)
    requires n < 10
    ensures IsDigit(c) && c as int - '0' as int == n
  {
    (('0' as int) + n) as char
  }

  /** `operator<<` on a non-negative integer: its decimal digits. */
  function ShowNat(n: nat): string {
    if n < 10 then [DigitChar(n)] else ShowNat(n / 10) + [DigitChar(n % 10)]
  }

  predicate AllDigits(s: string) {
    forall i :: 0 <= i < |s| ==> IsDigit(s[i])
  }

  lemma {:induction false} ShowNatDigits(n: nat)
    ensures |ShowNat(n)| >= 1 && AllDigits(ShowNat(n))
  {
    if n >= 10 {
      ShowNatDigits(n / 10);
    }
  }

  /** `operator<<` on an integer: a minus sign for a negative one. */
  function ShowInt(i: int): string {
    if i < 0 then "-" + ShowNat(-i) else ShowNat(i)
  }

  /** The text of an integer is a word, and holds neither a slash nor a line
      break. */
  lemma ShowIntChars(i: int)
    ensures |ShowInt(i)| >= 1 && NoSpace(ShowInt(i)) && '/' !in ShowInt(i) && '\n' !in ShowInt(i)
  {
    ShowNatDigits(if i < 0 then -i else i);
  }

  function DigitValue(c: char): nat
    requires IsDigit(c)
  {
    c as int - '0' as int
  }

  /** The number a run of decimal digits denotes. */
  function DigitsValue(ds: string): nat
    requires AllDigits(ds)
  {
    if ds == [] then 0
    else 
      assert IsDigit(ds[|ds| - 1]);
      DigitsValue(ds[..|ds| - 1]) * 10 + DigitValue(ds[|ds| - 1])
  }

  /** The longest prefix of s made of decimal digits. */
  function DigitPrefix(s: string): (ds: string)
    ensures |ds| <= |s| && ds == s[..|ds|]
    ensures AllDigits(ds)
    ensures |ds| < |s| ==> !IsDigit(s[|ds|])
  {
    if s == [] || !IsDigit(s[0]) then [] else [s[0]] + DigitPrefix(s[1..])
  }

  /** `std::stoi`: leading white space, an optional sign and the longest run
      of digits after it; anything after the digits is ignored, and no digit
      at all is an error. */
  function Stoi(s: string): Option<int> {
    var t := SkipSpace(s);
    var negative := t != [] && t[0] == '-';
    var u := if t != [] && (t[0] == '-' || t[0] == '+') then t[1..] else t;
    var ds := DigitPrefix(u);
    if ds == [] then None
    else if negative then Some(-(DigitsValue(ds) as int))
    else Some(DigitsValue(ds))
  }

  lemma DigitPrefixOfDigits(s: string)
    requires AllDigits(s)
    ensures DigitPrefix(s) == s
  {
    if s != [] {
      DigitPrefixOfDigits(s[1..]);
    }
  }

  lemma {:induction false} ShowNatValue(n: nat)
    ensures AllDigits(ShowNat(n)) && DigitsValue(ShowNat(n)) == n
  {
    ShowNatDigits(n);
    if n >= 10 {
      ShowNatDigits(n / 10);
      ShowNatValue(n / 10);
      var s := ShowNat(n / 10) + [DigitChar(n % 10)];
      assert s[..|s| - 1] == ShowNat(n / 10);
    }
  }

  /** `std::stoi` reads back what `operator<<` printed. */
  lemma StoiShowInt(i: int)
    ensures Stoi(ShowInt(i)) == Some(i)
  {
    var n: nat := if i < 0 then -i else i;
    var ds := ShowNat(n);
    ShowNatDigits(n);
    DigitPrefixOfDigits(ds);
    ShowNatValue(n);
    if i < 0 {
      var s := "-" + ds;
      assert s[0] == '-' && !IsSpace(s[0]);
      assert SkipSpace(s) == s;
      assert s[1..] == ds;
    } else {
      assert IsDigit(ds[0]) && !IsSpace(ds[0]);
      assert SkipSpace(ds) == ds;
    }
  }
}

/** The state of an input file stream as the OBJ reader uses it: the text
    not yet consumed and the end-of-file flag.  Every read that fails in the
    reader fails at the end of the file, so a failed stream is one whose
    end-of-file flag is set. */
module ObjStream {
  import opened ObjText

  datatype Stream = Stream(rest: string, eof: bool)

  /** Decreases with every read that does not find the stream at its end. */
  function Measure(st: Stream): nat {
    |st.rest| + (if st.eof then 0 else 1)
  }

  /** `stream >> word`, for a `std::string` and for a value alike: leading
      white space is skipped and the following word extracted.  Reaching the
      end of the text sets the end-of-file flag; a stream already at its end
      delivers the empty word. */
  function ReadWord(st: Stream): (r: (string, Stream))
    ensures st.eof ==> r == ([], st)
    ensures !st.eof ==> Measure(r.1) < Measure(st)
    ensures !st.eof && r.0 == [] ==> r.1 == Stream([], true)
  {
    if st.eof then ([], st)
    else
      var s := SkipSpace(st.rest);
      if s == [] then ([], Stream([], true))
      else
        var (w, after) := SplitWord(s);
        (w, Stream(after, after == []))
  }

  /** `std::getline`: the text up to the next line break, which is consumed
      and not delivered; without a line break, the rest of the text, and the
      end-of-file flag is set. */
  function GetLine(st: Stream): (r: (string, Stream))
    ensures Measure(r.1) <= Measure(st)
    ensures st.eof ==> r == ([], st)
  {
    if st.eof then ([], st)
    else
      var i := LineBreak(st.rest);
      if i == |st.rest| then (st.rest, Stream([], true))
      else (st.rest[..i], Stream(st.rest[i + 1..], false))
  }

  /** Reading a word that stands after white space and before white space. */
  lemma ReadWordOf(pre: string, w: string, post: string)
    requires forall i :: 0 <= i < |pre| ==> IsSpace(pre[i])
    requires IsWord(w) && post != [] && IsSpace(post[0])
    ensures ReadWord(Stream(pre + w + post, false)) == (w, Stream(post, false))
  {
    assert pre + w + post == pre + (w + post);
    SkipSpacePrefix(pre, w + post);
    SplitWordOf(w, post);
  }

  /** Reading the rest of a line that ends in a line break. */
  lemma GetLineOf(l: string, r: string)
    requires forall k :: 0 <= k < |l| ==> l[k] != '\n'
    ensures GetLine(Stream(l + "\n" + r, false)) == (l, Stream(r, false))
  {
    LineBreakOf(l, r);
    var s := l + "\n" + r;
    assert s[..|l|] == l && s[|l| + 1..] == r;
  }

  /** Reading at the end: only white space is left. */
  lemma ReadWordAtEnd(pre: string)
    requires forall i :: 0 <= i < |pre| ==> IsSpace(pre[i])
    ensures ReadWord(Stream(pre, false)) == ([], Stream([], true))
  {
    SkipSpacePrefix(pre, []);
    assert pre + [] == pre;
    assert SkipSpace([]) == [];
  }
}
