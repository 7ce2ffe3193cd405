/**
 * The string operations the row extractor relies on: Python's `str.strip()`
 * with no argument, `str.split('\n')`, and the inverse of that split
 * (joining lines with a newline, which is what rewriting every `<br>` into
 * `'\n'` produces once the cell's text is concatenated).
 */
module Text {

  const NL: char := '\n'

  /** Python's `str.isspace()` for one character: the set `str.strip()` removes. */
  predicate IsSpace(c: char) {
    ('\t' <= c <= '\r') || ('\U{1C}' <= c <= '\U{1F}') || c == ' '
    || c == '\U{85}' || c == '\U{A0}' || c == '\U{1680}'
    || ('\U{2000}' <= c <= '\U{200A}') || c == '\U{2028}' || c == '\U{2029}'
    || c == '\U{202F}' || c == '\U{205F}' || c == '\U{3000}'
  }

  predicate AllSpace(s: string) {
    forall i :: 0 <= i < |s| ==> IsSpace(s[i])
  }

  /** True when `s` has no whitespace at either end (an empty string has none). */
  predicate Trimmed(s: string) {
    s == [] || (!IsSpace(s[0]) && !IsSpace(s[|s| - 1]))
  }

  /** How many whitespace characters `s` starts with. */
  function LeadingSpace(s: string): (k: nat)
    ensures k <= |s|
    ensures forall i :: 0 <= i < k ==> IsSpace(s[i])
    ensures k < |s| ==> !IsSpace(s[k])
  {
    if s != [] && IsSpace(s[0]) then 1 + LeadingSpace(s[1..]) else 0
  }

  /** Where the whitespace that `s` ends with begins. */
  function TrailingSpace(s: string): (k: nat)
    ensures k <= |s|
    ensures forall i :: k <= i < |s| ==> IsSpace(s[i])
    ensures k > 0 ==> !IsSpace(s[k - 1])
  {
    if s != [] && IsSpace(s[|s| - 1]) then TrailingSpace(s[..|s| - 1]) else |s|
  }

  /** Python's `str.strip()`: `s` without its leading and trailing whitespace. */
  function Strip(s: string): (r: string)
    ensures |r| <= |s|
    ensures Trimmed(r)
    ensures r == [] <==> AllSpace(s)
  {
    var i, j := LeadingSpace(s), TrailingSpace(s);
    if i < j then s[i..j] else []
  }

  /** Strip removes exactly a whitespace prefix and a whitespace suffix. */
  lemma StripSplits(s: string) returns (a: string, b: string)
    ensures s == a + Strip(s) + b
    ensures AllSpace(a) && AllSpace(b)
  {
    var i, j := LeadingSpace(s), TrailingSpace(s);
    if i < j {
      a, b := s[..i], s[j..];
      assert s == s[..i] + s[i..j] + s[j..];
      SpacePrefix(s, i);
      SpaceSuffix(s, j);
    } else {
      a, b := s, [];
      assert s == s + [] + [];
    }
  }

  lemma SpacePrefix(s: string, i: nat)
    requires i <= |s| && forall k :: 0 <= k < i ==> IsSpace(s[k])
    ensures AllSpace(s[..i])
  {
  }

  lemma SpaceSuffix(s: string, j: nat)
    requires j <= |s| && forall k :: j <= k < |s| ==> IsSpace(s[k])
    ensures AllSpace(s[j..])
  {
    assert forall k :: 0 <= k < |s| - j ==> s[j..][k] == s[j + k];
  }

  lemma AllSpaceConcat(a: string, b: string)
    requires AllSpace(a) && AllSpace(b)
    ensures AllSpace(a + b)
  {
    forall i | 0 <= i < |a + b| ensures IsSpace((a + b)[i]) {
      if i >= |a| { assert (a + b)[i] == b[i - |a|]; }
    }
  }

  /** Whatever whitespace surrounds a trimmed string, Strip recovers that string. */
  lemma StripUnique(a: string, r: string, b: string)
    requires AllSpace(a) && AllSpace(b) && Trimmed(r)
    ensures Strip(a + r + b) == r
  {
    var s := a + r + b;
    if r == [] {
      AllSpaceConcat(a, b);
      assert s == a + b;
    } else {
      var i, j := LeadingSpace(s), TrailingSpace(s);
      assert s[|a|] == r[0];
      assert s[|a| + |r| - 1] == r[|r| - 1];
      assert i == |a| && j == |a| + |r|;
      assert s[i..j] == r;
    }
  }

  /** Stripping twice is the same as stripping once. */
  lemma StripIdempotent(s: string)
    ensures Strip(Strip(s)) == Strip(s)
  {
    StripUnique([], Strip(s), []);
    assert [] + Strip(s) + [] == Strip(s);
  }

  /** Python's `str.split('\n')`: never empty, one more piece than there are newlines. */
  function Split(s: string): (lines: seq<string>)
    ensures |lines| >= 1
    ensures forall i :: 0 <= i < |lines| ==> NL !in lines[i]
  {
    if s == [] then [""]
    else
      var rest := Split(s[1..]);
      if s[0] == NL then [""] + rest
      else [[s[0]] + rest[0]] + rest[1..]
  }

  /** Lines joined back with a newline between consecutive ones. */
  function Join(lines: seq<string>): string
  {
    if |lines| == 0 then ""
    else if |lines| == 1 then lines[0]
    else lines[0] + [NL] + Join(lines[1..])
  }

  /** Two or more joined lines hold a newline. */
  lemma JoinNewline(lines: seq<string>)
    ensures |lines| > 1 ==> NL in Join(lines)
  {
    if |lines| > 1 {
      assert Join(lines)[|lines[0]|] == NL;
    }
  }

  /** Index of the first newline of `s`, or `|s|` when there is none. */
  function LineEnd(s: string): (k: nat)
    ensures k <= |s| && NL !in s[..k]
    ensures k < |s| ==> s[k] == NL
  {
    if s == [] || s[0] == NL then 0
    else
      var k := 1 + LineEnd(s[1..]);
      assert s[..k] == [s[0]] + s[1..][..k - 1];
      k
  }

  /** Index just after the last newline of `s`, or 0 when there is none. */
  function LastLineStart(s: string): (k: nat)
    ensures k <= |s| && NL !in s[k..]
    ensures k > 0 ==> s[k - 1] == NL
  {
    if s == [] || s[|s| - 1] == NL then |s|
    else
      var k := LastLineStart(s[..|s| - 1]);
      assert s[k..] == s[..|s| - 1][k..] + [s[|s| - 1]];
      k
  }

  /** The text before the first newline. */
  function FirstLine(s: string): string
  {
    s[..LineEnd(s)]
  }

  /** The text after the last newline. */
  function LastLine(s: string): string
  {
    s[LastLineStart(s)..]
  }

  lemma {:induction false} SplitWithoutNewline(s: string)
    requires NL !in s
    ensures Split(s) == [s]
  {
    if s != [] {
      assert NL !in s[1..] by { assert forall c :: c in s[1..] ==> c in s; }
      SplitWithoutNewline(s[1..]);
      assert [s[0]] + s[1..] == s;
    }
  }

  /** Splitting around a newline splits each side independently. */
  lemma {:induction false} SplitAround(a: string, b: string)
    ensures Split(a + [NL] + b) == Split(a) + Split(b)
  {
    var s := a + [NL] + b;
    if a == [] {
      assert s[1..] == b;
    } else {
      assert s[1..] == a[1..] + [NL] + b;
      SplitAround(a[1..], b);
      if a[0] != NL {
        ExtendFirst([a[0]], Split(a[1..]), Split(b));
      }
    }
  }

  /** Growing the first line commutes with appending further lines. */
  lemma ExtendFirst(c: string, lines: seq<string>, more: seq<string>)
    requires |lines| >= 1
    ensures [c + (lines + more)[0]] + (lines + more)[1..] == ([c + lines[0]] + lines[1..]) + more
  {
    assert (lines + more)[1..] == lines[1..] + more;
  }

  /** A newline is present exactly when the split yields more than one line. */
  lemma {:induction false} SplitMany(s: string)
    ensures |Split(s)| > 1 <==> NL in s
  {
    if NL in s {
      var k := LineEnd(s);
      assert s == s[..k] + [NL] + s[k + 1..];
      SplitAround(s[..k], s[k + 1..]);
    } else {
      SplitWithoutNewline(s);
    }
  }

  /** The first piece of the split is the first line. */
  lemma SplitFirst(s: string)
    ensures Split(s)[0] == FirstLine(s)
  {
    var k := LineEnd(s);
    if k < |s| {
      assert s == s[..k] + [NL] + s[k + 1..];
      SplitAround(s[..k], s[k + 1..]);
      assert (Split(s[..k]) + Split(s[k + 1..]))[0] == Split(s[..k])[0];
    } else {
      assert s[..k] == s;
    }
    SplitWithoutNewline(s[..k]);
  }

  /** The last piece of the split is the last line. */
  lemma SplitLast(s: string)
    ensures Split(s)[|Split(s)| - 1] == LastLine(s)
  {
    var k := LastLineStart(s);
    if k > 0 {
      assert s == s[..k - 1] + [NL] + s[k..];
      SplitAround(s[..k - 1], s[k..]);
      var xs, ys := Split(s[..k - 1]), Split(s[k..]);
      assert (xs + ys)[|xs + ys| - 1] == ys[|ys| - 1];
    } else {
      assert s[k..] == s;
    }
    SplitWithoutNewline(s[k..]);
  }

  /** Joining the pieces of a split gives back the string. */
  lemma {:induction false} JoinSplit(s: string)
    ensures Join(Split(s)) == s
    decreases |s|
  {
    var k := LineEnd(s);
    if k < |s| {
      assert s == s[..k] + [NL] + s[k + 1..];
      SplitAround(s[..k], s[k + 1..]);
      SplitWithoutNewline(s[..k]);
      JoinSplit(s[k + 1..]);
      assert ([s[..k]] + Split(s[k + 1..]))[1..] == Split(s[k + 1..]);
    } else {
      assert s[..k] == s;
      SplitWithoutNewline(s);
    }
  }

  /** Splitting lines that hold no newline after joining them gives the lines back. */
  lemma {:induction false} SplitJoin(lines: seq<string>)
    requires |lines| >= 1
    requires forall i :: 0 <= i < |lines| ==> NL !in lines[i]
    ensures Split(Join(lines)) == lines
  {
    SplitWithoutNewline(lines[0]);
    if |lines| > 1 {
      SplitJoin(lines[1..]);
      SplitAround(lines[0], Join(lines[1..]));
      assert [lines[0]] + lines[1..] == lines;
    }
  }

  /** Each line stripped, as `list(map(lambda x: x.strip(), s.split('\n')))`. */
  function StripEach(lines: seq<string>): (r: seq<string>)
    ensures |r| == |lines|
    ensures forall i :: 0 <= i < |lines| ==> r[i] == Strip(lines[i])
  {
    if lines == [] then [] else [Strip(lines[0])] + StripEach(lines[1..])
  }

  function Lines(s: string): seq<string>
  {
    StripEach(Split(s))
  }

  /** A cell whose lines are `lines`, as a reader of the table sees them. */
  predicate VisibleLines(lines: seq<string>) {
    |lines| >= 1
    && (forall i :: 0 <= i < |lines| ==> NL !in lines[i])
    && (|lines| > 1 ==> !AllSpace(lines[0]) && !AllSpace(lines[|lines| - 1]))
  }

  /** Replacing the last line's tail: the join loses exactly that tail. */
  lemma {:induction false} JoinLastSuffix(lines: seq<string>, y: string, b: string)
    requires |lines| >= 1 && lines[|lines| - 1] == y + b
    ensures Join(lines) == Join(lines[..|lines| - 1] + [y]) + b
  {
    if |lines| > 1 {
      var m := lines[..|lines| - 1] + [y];
      assert m[1..] == lines[1..][..|lines| - 2] + [y];
      JoinLastSuffix(lines[1..], y, b);
    }
  }

  /** Replacing the first line by its tail: the join loses exactly that head. */
  lemma JoinFirstPrefix(lines: seq<string>, a: string, x: string)
    requires |lines| >= 1 && lines[0] == a + x
    ensures Join(lines) == a + Join([x] + lines[1..])
  {
    var m := [x] + lines[1..];
    assert m[1..] == lines[1..];
  }

  lemma JoinHead(lines: seq<string>)
    requires |lines| >= 1 && lines[0] != []
    ensures |Join(lines)| > 0 && Join(lines)[0] == lines[0][0]
  {
  }

  lemma NoNewlineInPart(x: string, a: string, y: string, b: string)
    requires x == a + y + b
    ensures NL !in x ==> NL !in y
  {
    assert x == a + (y + b);
  }

  lemma StripOfTrailing(r: string, b: string)
    requires Trimmed(r) && AllSpace(b)
    ensures Strip(r + b) == r
  {
    StripUnique([], r, b);
    assert [] + r + b == r + b;
  }

  lemma StripOfLeading(a: string, r: string)
    requires Trimmed(r) && AllSpace(a)
    ensures Strip(a + r) == r
  {
    StripUnique(a, r, []);
    assert a + r + [] == a + r;
  }

  /** Cutting a head off the first line and a tail off the last line cuts them off the join. */
  lemma JoinEdges(lines: seq<string>, a: string, first: string, last: string, b: string)
    returns (inner: seq<string>)
    requires |lines| > 1 && lines[0] == a + first && lines[|lines| - 1] == last + b
    ensures inner == [first] + lines[1..|lines| - 1] + [last]
    ensures Join(lines) == a + Join(inner) + b
  {
    var n := |lines|;
    var mid := lines[..n - 1] + [last];
    JoinLastSuffix(lines, last, b);
    inner := [first] + mid[1..];
    JoinFirstPrefix(mid, a, first);
    assert mid[1..] == lines[1..n - 1] + [last];
  }

  /** A join whose first line starts and whose last line ends with a visible character. */
  lemma JoinTrimmed(lines: seq<string>)
    requires |lines| > 1
    requires lines[0] != [] && !IsSpace(lines[0][0])
    requires lines[|lines| - 1] != [] && !IsSpace(lines[|lines| - 1][|lines[|lines| - 1]| - 1])
    ensures Trimmed(Join(lines))
  {
    var n := |lines|;
    var l := lines[n - 1];
    JoinHead(lines);
    assert l == l[..|l| - 1] + [l[|l| - 1]];
    JoinLastSuffix(lines, l[..|l| - 1], [l[|l| - 1]]);
  }

  /** A visible line is leading whitespace followed by a part that starts visibly and strips the same. */
  lemma VisibleHead(x: string) returns (a: string, y: string)
    requires !AllSpace(x)
    ensures x == a + y && AllSpace(a)
    ensures y != [] && !IsSpace(y[0])
    ensures Strip(y) == Strip(x) && (NL !in x ==> NL !in y)
  {
    var b;
    a, b := StripSplits(x);
    var r := Strip(x);
    assert r != [];
    y := r + b;
    assert a + r + b == a + (r + b);
    assert y[0] == r[0];
    StripOfTrailing(r, b);
    NoNewlineAfter(x, a, y);
  }

  lemma NoNewlineAfter(x: string, a: string, y: string)
    requires x == a + y
    ensures NL !in x ==> NL !in y
  {
    assert forall k :: 0 <= k < |y| ==> y[k] == x[|a| + k];
  }

  lemma NoNewlineBefore(x: string, y: string, b: string)
    requires x == y + b
    ensures NL !in x ==> NL !in y
  {
    assert forall k :: 0 <= k < |y| ==> y[k] == x[k];
  }

  /** A visible line is a part that ends visibly and strips the same, followed by trailing whitespace. */
  lemma VisibleTail(x: string) returns (y: string, b: string)
    requires !AllSpace(x)
    ensures x == y + b && AllSpace(b)
    ensures y != [] && !IsSpace(y[|y| - 1])
    ensures Strip(y) == Strip(x) && (NL !in x ==> NL !in y)
  {
    var a;
    a, b := StripSplits(x);
    var r := Strip(x);
    assert r != [];
    y := a + r;
    assert x == y + b;
    assert y[|y| - 1] == r[|r| - 1];
    StripOfLeading(a, r);
    NoNewlineBefore(x, y, b);
  }

  /**
   * The strip of a multi-line text is the same text with the leading
   * whitespace of its first line and the trailing whitespace of its last line
   * removed.
   */
  lemma StripJoin(lines: seq<string>) returns (inner: seq<string>)
    requires VisibleLines(lines) && |lines| > 1
    ensures Strip(Join(lines)) == Join(inner)
    ensures |inner| == |lines|
    ensures forall i :: 0 <= i < |inner| ==> NL !in inner[i] && Strip(inner[i]) == Strip(lines[i])
  {
    var n := |lines|;
    var a0, first := VisibleHead(lines[0]);
    var last, bl := VisibleTail(lines[n - 1]);
    inner := JoinEdges(lines, a0, first, last, bl);
    JoinTrimmed(inner);
    StripUnique(a0, Join(inner), bl);
    forall i | 0 <= i < n ensures NL !in inner[i] && Strip(inner[i]) == Strip(lines[i]) {
      if 0 < i < n - 1 {
        assert inner[i] == lines[i];
      }
    }
  }

  /**
   * Stripping a multi-line text and then stripping each of its lines gives
   * the stripped lines the text was made of, provided the first and the last
   * line show something.
   */
  lemma CellLines(lines: seq<string>)
    requires VisibleLines(lines)
    ensures Lines(Strip(Join(lines))) == StripEach(lines)
  {
    if |lines| == 1 {
      OneCellLine(lines);
    } else {
      ManyCellLines(lines);
    }
  }

  lemma ManyCellLines(lines: seq<string>)
    requires VisibleLines(lines) && |lines| > 1
    ensures Lines(Strip(Join(lines))) == StripEach(lines)
  {
    var inner := StripJoin(lines);
    SplitJoin(inner);
    SameStrips(inner, lines);
  }

  lemma SameStrips(xs: seq<string>, ys: seq<string>)
    requires |xs| == |ys|
    requires forall i :: 0 <= i < |xs| ==> Strip(xs[i]) == Strip(ys[i])
    ensures StripEach(xs) == StripEach(ys)
  {
    assert forall i :: 0 <= i < |xs| ==> StripEach(xs)[i] == StripEach(ys)[i];
  }

  lemma OneCellLine(lines: seq<string>)
    requires |lines| == 1 && NL !in lines[0]
    ensures Lines(Strip(Join(lines))) == StripEach(lines)
  {
    var x := lines[0];
    var a, b := StripSplits(x);
    NoNewlineInPart(x, a, Strip(x), b);
    SplitWithoutNewline(Strip(x));
    StripIdempotent(x);
    assert Join(lines) == x;
  }

}
