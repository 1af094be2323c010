/** Python string operations used by the engine, over `seq<char>`. */
module Strings {

  // ---------------------------------------------------------------------------
  // Character classes
  // ---------------------------------------------------------------------------

  /** Python's `\s` for `str` patterns (the same characters as `str.isspace`). */
  predicate IsSpace(c: char) {
    var n := c as int;
    (9 <= n <= 13) || (28 <= n <= 32) || n == 0x85 || n == 0xA0 || n == 0x1680
    || (0x2000 <= n <= 0x200A) || n == 0x2028 || n == 0x2029 || n == 0x202F
    || n == 0x205F || n == 0x3000
  }

  /** `\w`, restricted to ASCII letters, digits and underscore. */
  predicate IsWordChar(c: char) {
    ('a' <= c <= 'z') || ('A' <= c <= 'Z') || ('0' <= c <= '9') || c == '_'
  }

  /** The characters at which `str.splitlines` breaks a line. */
  predicate IsLineBoundary(c: char) {
    var n := c as int;
    (10 <= n <= 13) || (28 <= n <= 30) || n == 0x85 || n == 0x2028 || n == 0x2029
  }

  // ---------------------------------------------------------------------------
  // Prefix, suffix and substring tests
  // ---------------------------------------------------------------------------

  /** `s.startswith(t)` */
  predicate StartsWith(s: string, t: string) {
    |t| <= |s| && s[..|t|] == t
  }

  /** `s.endswith(t)` */
  predicate EndsWith(s: string, t: string) {
    |t| <= |s| && s[|s| - |t|..] == t
  }

  /** `t in s`, computed by scanning the start positions of `s`. */
  predicate Contains(s: string, t: string)
    decreases |s|
  {
    StartsWith(s, t) || (0 < |s| && Contains(s[1..], t))
  }

  /** An occurrence of `t` at any position `k` of `s` makes `Contains` hold. */
  lemma {:induction false} ContainsAt(s: string, t: string, k: nat)
    requires k <= |s| && StartsWith(s[k..], t)
    ensures Contains(s, t)
    decreases k
  {
    if k > 0 {
      assert s[1..][k - 1..] == s[k..];
      ContainsAt(s[1..], t, k - 1);
    }
  }

  /** `Contains` holds exactly when some position of `s` starts an occurrence of `t`. */
  lemma {:induction false} ContainsWitness(s: string, t: string)
    requires Contains(s, t)
    ensures exists k :: 0 <= k <= |s| && StartsWith(s[k..], t)
    decreases |s|
  {
    if StartsWith(s, t) {
      assert s[0..] == s;
    } else {
      ContainsWitness(s[1..], t);
      var k :| 0 <= k <= |s[1..]| && StartsWith(s[1..][k..], t);
      assert s[1..][k..] == s[k + 1..];
    }
  }

  /** What occurs in a part of a text occurs in the text. */
  lemma ContainsTrans(s: string, u: string, t: string)
    requires Contains(s, u) && Contains(u, t)
    ensures Contains(s, t)
  {
    ContainsWitness(s, u);
    ContainsWitness(u, t);
    var a :| 0 <= a <= |s| && StartsWith(s[a..], u);
    var b :| 0 <= b <= |u| && StartsWith(u[b..], t);
    forall k | 0 <= k < |t| ensures s[a + b + k] == t[k] {
      assert s[a + b + k] == s[a..][..|u|][b + k];
      assert u[b + k] == u[b..][..|t|][k];
    }
    assert s[a + b..][..|t|] == t;
    ContainsAt(s, t, a + b);
  }

  /** Every slice of a text occurs in it. */
  lemma ContainsSlice(s: string, a: nat, b: nat)
    requires a <= b <= |s|
    ensures Contains(s, s[a..b])
  {
    assert s[a..][..b - a] == s[a..b];
    ContainsAt(s, s[a..b], a);
  }

  /** A text without the first character of `t` does not contain `t`. */
  lemma {:induction false} NotContainsFirst(s: string, t: string)
    requires |t| > 0 && forall k :: 0 <= k < |s| ==> s[k] != t[0]
    ensures !Contains(s, t)
    decreases |s|
  {
    if |s| > 0 {
      assert s[0] != t[0];
      NotContainsFirst(s[1..], t);
    }
  }

  // ---------------------------------------------------------------------------
  // Replace, split, join, strip
  // ---------------------------------------------------------------------------

  /** `s.replace(a, b)` for one-character `a` and `b`. */
  function ReplaceChar(s: string, a: char, b: char): (r: string)
    ensures |r| == |s|
    ensures forall i :: 0 <= i < |s| ==> r[i] == (if s[i] == a then b else s[i])
    ensures a != b ==> a !in r
  {
    seq(|s|, i requires 0 <= i < |s| => if s[i] == a then b else s[i])
  }

  /** Index of the first occurrence of `c` in `s`, or `|s|` if there is none. */
  function IndexOf(s: string, c: char): (i: nat)
    ensures i <= |s|
    ensures forall k :: 0 <= k < i ==> s[k] != c
    ensures i < |s| ==> s[i] == c
    decreases |s|
  {
    if |s| == 0 then 0 else if s[0] == c then 0 else 1 + IndexOf(s[1..], c)
  }

  /** `sep.join(parts)` for a one-character separator. */
  function Join(parts: seq<string>, sep: char): string
    decreases |parts|
  {
    if |parts| == 0 then ""
    else if |parts| == 1 then parts[0]
    else parts[0] + [sep] + Join(parts[1..], sep)
  }

  /** `s.split(sep)` for a one-character separator: never empty, and an empty `s` gives `[""]`. */
  function Split(s: string, sep: char): (r: seq<string>)
    ensures |r| >= 1
    ensures forall i :: 0 <= i < |r| ==> sep !in r[i]
    ensures Join(r, sep) == s
    decreases |s|
  {
    var i := IndexOf(s, sep);
    if i == |s| then [s]
    else
      var rest := Split(s[i + 1..], sep);
      assert s == s[..i] + [sep] + s[i + 1..];
      [s[..i]] + rest
  }

  /** Splitting a join gives back the parts, when no part contains the separator. */
  lemma {:induction false} SplitJoin(parts: seq<string>, sep: char)
    requires |parts| >= 1
    requires forall i :: 0 <= i < |parts| ==> sep !in parts[i]
    ensures Split(Join(parts, sep), sep) == parts
    decreases |parts|
  {
    if |parts| > 1 {
      var s := Join(parts, sep);
      var tail := Join(parts[1..], sep);
      assert s == parts[0] + [sep] + tail;
      var i := IndexOf(s, sep);
      assert s[|parts[0]|] == sep;
      assert forall k :: 0 <= k < |parts[0]| ==> s[k] == parts[0][k];
      assert i == |parts[0]|;
      assert s[..i] == parts[0];
      assert s[i + 1..] == tail;
      SplitJoin(parts[1..], sep);
    }
  }

  /** `split` gives a single part exactly when the separator does not occur. */
  lemma SplitSingle(s: string, c: char)
    ensures |Split(s, c)| == 1 <==> c !in s
  {
    var i := IndexOf(s, c);
    if i < |s| {
      assert s[i] == c;
    }
  }

  lemma EndsWithPrefix(a: string, s: string, t: string)
    requires EndsWith(s, t)
    ensures EndsWith(a + s, t)
  {
    assert (a + s)[|a + s| - |t|..] == s[|s| - |t|..];
  }

  /** A join ends with its last part, preceded by the separator when there are two or
      more parts. */
  lemma {:induction false} JoinEnds(parts: seq<string>, sep: char)
    requires |parts| >= 1
    ensures EndsWith(Join(parts, sep), parts[|parts| - 1])
    ensures |parts| >= 2 ==> EndsWith(Join(parts, sep), [sep] + parts[|parts| - 1])
    decreases |parts|
  {
    var last := parts[|parts| - 1];
    if |parts| == 2 {
      assert Join(parts, sep) == parts[0] + ([sep] + last);
      EndsWithPrefix(parts[0], [sep] + last, [sep] + last);
      EndsWithPrefix(parts[0] + [sep], last, last);
      assert parts[0] + [sep] + last == parts[0] + ([sep] + last);
    } else if |parts| > 2 {
      JoinEnds(parts[1..], sep);
      assert Join(parts, sep) == (parts[0] + [sep]) + Join(parts[1..], sep);
      EndsWithPrefix(parts[0] + [sep], Join(parts[1..], sep), last);
      EndsWithPrefix(parts[0] + [sep], Join(parts[1..], sep), [sep] + last);
    }
  }

  /** A first part free of the separator splits off as the first part. */
  lemma SplitCons(a: string, sep: char, b: string)
    requires sep !in a
    ensures Split(a + [sep] + b, sep) == [a] + Split(b, sep)
  {
    var s := a + [sep] + b;
    assert forall k :: 0 <= k < |a| ==> s[k] == a[k];
    assert s[|a|] == sep;
    assert IndexOf(s, sep) == |a|;
    assert s[..|a|] == a;
    assert s[|a| + 1..] == b;
  }

  /** `s.lstrip(c)` for one character `c`. */
  function LStrip(s: string, c: char): (r: string)
    ensures |r| <= |s| && r == s[|s| - |r|..]
    ensures r == [] || r[0] != c
    ensures forall k :: 0 <= k < |s| - |r| ==> s[k] == c
    decreases |s|
  {
    if |s| > 0 && s[0] == c then LStrip(s[1..], c) else s
  }

  /** `s.rstrip(c)` for one character `c`. */
  function RStrip(s: string, c: char): (r: string)
    ensures |r| <= |s| && r == s[..|r|]
    ensures r == [] || r[|r| - 1] != c
    ensures forall k :: |r| <= k < |s| ==> s[k] == c
    decreases |s|
  {
    if |s| > 0 && s[|s| - 1] == c then RStrip(s[..|s| - 1], c) else s
  }

  /** `s.strip(c)` for one character `c`. */
  function Strip(s: string, c: char): string {
    RStrip(LStrip(s, c), c)
  }

  /** A string that neither starts nor ends with `c` is left alone by `strip`, and one `c` at
      its front is removed. */
  lemma StripLeading(x: string, c: char)
    requires x != [] && x[0] != c && x[|x| - 1] != c
    ensures Strip(x, c) == x
    ensures Strip([c] + x, c) == x
  {
    assert LStrip(x, c) == x;
    assert ([c] + x)[1..] == x;
    assert LStrip([c] + x, c) == x;
  }

  // ---------------------------------------------------------------------------
  // splitlines
  // ---------------------------------------------------------------------------

  /** Index of the first line-boundary character of `s`, or `|s|`. */
  function FirstBoundary(s: string): (i: nat)
    ensures i <= |s|
    ensures forall k :: 0 <= k < i ==> !IsLineBoundary(s[k])
    ensures i < |s| ==> IsLineBoundary(s[i])
    decreases |s|
  {
    if |s| == 0 then 0 else if IsLineBoundary(s[0]) then 0 else 1 + FirstBoundary(s[1..])
  }

  /** `s.splitlines()`: breaks at every line boundary (`"\r\n"` counts once),
      drops the boundaries, and gives no trailing empty line. */
  function SplitLines(s: string): (r: seq<string>)
    ensures forall k, j :: 0 <= k < |r| && 0 <= j < |r[k]| ==> !IsLineBoundary(r[k][j])
    ensures |r| <= |s|
    decreases |s|
  {
    if |s| == 0 then []
    else
      var i := FirstBoundary(s);
      if i == |s| then [s]
      else
        var skip := if s[i] == '\r' && i + 1 < |s| && s[i + 1] == '\n' then 2 else 1;
        [s[..i]] + SplitLines(s[i + skip..])
  }

  /** A line without boundary characters followed by `'\n'` is split off first. */
  lemma SplitLinesCons(line: string, rest: string)
    requires forall k :: 0 <= k < |line| ==> !IsLineBoundary(line[k])
    ensures SplitLines(line + "\n" + rest) == [line] + SplitLines(rest)
  {
    var s := line + "\n" + rest;
    assert FirstBoundary(s) == |line| by {
      var i := FirstBoundary(s);
      assert forall k :: 0 <= k < |line| ==> s[k] == line[k];
      assert IsLineBoundary(s[|line|]);
    }
    assert s[..|line|] == line;
    assert s[|line| + 1..] == rest;
  }

  /** Content free of boundary characters is one line, or none when empty. */
  lemma SplitLinesSingle(line: string)
    requires forall k :: 0 <= k < |line| ==> !IsLineBoundary(line[k])
    ensures SplitLines(line) == if line == "" then [] else [line]
  {
    if line != "" {
      assert FirstBoundary(line) == |line|;
    }
  }

  // A reference reading of `str.splitlines`, by positions in the whole text.

  /** The first line boundary at or after `i`, or `|s|`. */
  function BoundaryFrom(s: string, i: nat): (j: nat)
    requires i <= |s|
    ensures i <= j <= |s|
    ensures j < |s| ==> IsLineBoundary(s[j])
    decreases |s| - i
  {
    if i == |s| || IsLineBoundary(s[i]) then i else BoundaryFrom(s, i + 1)
  }

  /** No boundary lies between `i` and `BoundaryFrom(s, i)`. */
  lemma {:induction false} BoundaryFromFirst(s: string, i: nat)
    requires i <= |s|
    ensures forall k :: i <= k < BoundaryFrom(s, i) ==> !IsLineBoundary(s[k])
    decreases |s| - i
  {
    if i < |s| && !IsLineBoundary(s[i]) {
      BoundaryFromFirst(s, i + 1);
    }
  }

  /** The length of the boundary at `j`: two characters for `"\r\n"`, one otherwise. */
  function BoundaryWidth(s: string, j: nat): (w: nat)
    requires j < |s| && IsLineBoundary(s[j])
    ensures w == 1 || w == 2
    ensures j + w <= |s|
  {
    if s[j] == '\r' && j + 1 < |s| && s[j + 1] == '\n' then 2 else 1
  }

  /** The lines of `s` from position `i`: the slices between consecutive boundaries, each
      boundary removed, a final slice only when it is not empty. */
  function SliceLines(s: string, i: nat): (r: seq<string>)
    requires i <= |s|
    ensures |r| <= |s| - i
    decreases |s| - i
  {
    if i == |s| then []
    else
      var j := BoundaryFrom(s, i);
      if j == |s| then [s[i..]] else [s[i..j]] + SliceLines(s, j + BoundaryWidth(s, j))
  }

  /** Each line of `SliceLines(s, i)` is a slice of `s` lying after `i`. */
  lemma {:induction false} SliceLinesAreSlices(s: string, i: nat)
    requires i <= |s|
    ensures forall k :: 0 <= k < |SliceLines(s, i)| ==>
      exists a, b :: i <= a <= b <= |s| && SliceLines(s, i)[k] == s[a..b]
    decreases |s| - i
  {
    if i < |s| {
      var j := BoundaryFrom(s, i);
      var r := SliceLines(s, i);
      if j < |s| {
        var n := j + BoundaryWidth(s, j);
        SliceLinesAreSlices(s, n);
        forall k | 0 <= k < |r| ensures exists a, b :: i <= a <= b <= |s| && r[k] == s[a..b] {
          if k == 0 {
            assert r[0] == s[i..j];
          } else {
            assert r[k] == SliceLines(s, n)[k - 1];
          }
        }
      } else {
        assert r[0] == s[i..] == s[i..|s|];
      }
    } else {
      assert SliceLines(s, i) == [];
    }
  }

  /** Where `FirstBoundary` stops on the suffix from `i` is where `BoundaryFrom` does on
      the whole text. */
  lemma FirstBoundaryFrom(s: string, i: nat)
    requires i <= |s|
    ensures i + FirstBoundary(s[i..]) == BoundaryFrom(s, i)
  {
    BoundaryFromFirst(s, i);
    var t := s[i..];
    assert forall k :: 0 <= k < |t| ==> t[k] == s[i + k];
  }

  /** The last line of `SliceLines` runs to the end of the text. */
  lemma SliceLinesLast(s: string, i: nat)
    requires i < |s| && BoundaryFrom(s, i) == |s|
    ensures SliceLines(s, i) == [s[i..]]
  {
  }

  /** A line of `SliceLines` ending at boundary `j` is followed by the lines after it. */
  lemma SliceLinesNext(s: string, i: nat, j: nat, w: nat)
    requires i < |s| && j == BoundaryFrom(s, i) && j < |s| && w == BoundaryWidth(s, j)
    ensures SliceLines(s, i) == [s[i..j]] + SliceLines(s, j + w)
  {
  }

  /** On a suffix with no boundary, `SplitLines` gives the suffix as its one line. */
  lemma SplitLinesLast(s: string, i: nat)
    requires i < |s| && BoundaryFrom(s, i) == |s|
    ensures SplitLines(s[i..]) == [s[i..]]
  {
    FirstBoundaryFrom(s, i);
  }

  /** Dropping `i` characters and then `n` drops `i + n`. */
  lemma DropDrop(s: string, i: nat, n: nat)
    requires i + n <= |s|
    ensures s[i..][n..] == s[i + n..]
  {
  }

  /** `SplitLines` breaks at its first boundary `f` and skips that boundary's width `w`. */
  lemma SplitLinesFirst(t: string, f: nat, w: nat)
    requires f == FirstBoundary(t) && f < |t| && w == BoundaryWidth(t, f)
    ensures SplitLines(t) == [t[..f]] + SplitLines(t[f + w..])
  {
    assert |t| != 0;
    var skip := if t[f] == '\r' && f + 1 < |t| && t[f + 1] == '\n' then 2 else 1;
    assert skip == w;
  }

  /** A boundary has the same width in a suffix that still holds it. */
  lemma BoundaryWidthFrom(s: string, i: nat, j: nat)
    requires i <= j < |s| && IsLineBoundary(s[j])
    ensures BoundaryWidth(s[i..], j - i) == BoundaryWidth(s, j)
  {
    var t := s[i..];
    assert t[j - i] == s[j];
    assert j + 1 < |s| ==> t[j - i + 1] == s[j + 1];
  }

  /** The suffix from `i` seen from its own start: its first boundary, that boundary's
      width, and the slices before and after it. */
  lemma SuffixAt(s: string, i: nat, j: nat, w: nat)
    requires i < |s| && j == BoundaryFrom(s, i) && j < |s| && w == BoundaryWidth(s, j)
    ensures FirstBoundary(s[i..]) == j - i && BoundaryWidth(s[i..], j - i) == w
    ensures s[i..][..j - i] == s[i..j] && s[i..][j - i + w..] == s[j + w..]
  {
    FirstBoundaryFrom(s, i);
    BoundaryWidthFrom(s, i, j);
    DropDrop(s, i, j - i + w);
  }

  /** One step of `SplitLines` on the suffix from `i`, in positions of the whole text. */
  lemma SplitLinesNext(s: string, i: nat, j: nat, w: nat)
    requires i < |s| && j == BoundaryFrom(s, i) && j < |s| && w == BoundaryWidth(s, j)
    ensures SplitLines(s[i..]) == [s[i..j]] + SplitLines(s[j + w..])
  {
    SuffixAt(s, i, j, w);
    SplitLinesFirst(s[i..], j - i, w);
  }

  /** `SplitLines`, which consumes the text from the front, gives the slices between
      consecutive boundaries of the whole text. */
  lemma {:induction false} SplitLinesSlices(s: string, i: nat)
    requires i <= |s|
    ensures SplitLines(s[i..]) == SliceLines(s, i)
    decreases |s| - i
  {
    if i == |s| {
      assert s[i..] == [];
    } else {
      var j := BoundaryFrom(s, i);
      if j < |s| {
        var w := BoundaryWidth(s, j);
        SplitLinesNext(s, i, j, w);
        SliceLinesNext(s, i, j, w);
        SplitLinesSlices(s, j + w);
      } else {
        SplitLinesLast(s, i);
        SliceLinesLast(s, i);
      }
    }
  }

  /** Every line of `s.splitlines()` occurs in `s`. */
  lemma SplitLinesContained(s: string)
    ensures forall k :: 0 <= k < |SplitLines(s)| ==> Contains(s, SplitLines(s)[k])
  {
    SplitLinesSlices(s, 0);
    SliceLinesAreSlices(s, 0);
    assert s[0..] == s;
    var r := SliceLines(s, 0);
    forall k | 0 <= k < |r| ensures Contains(s, r[k]) {
      var a, b :| 0 <= a <= b <= |s| && r[k] == s[a..b];
      ContainsSlice(s, a, b);
    }
  }
}
