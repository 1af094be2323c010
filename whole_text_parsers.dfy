/** The whole-text import extractors of `dotnet_parser.py`, `java_parser.py`,
    `javascript_parser.py` and `cpp_parser.py`: each applies its pattern with `re.findall`
    under `re.MULTILINE`, so `^` holds at the start of the text and after every `'\n'`, and
    the scan resumes where the previous match ended. */
module WholeTextParsers {
  import opened Strings
  import opened Wrappers
  import opened Patterns
  import opened LanguageParsers

  /** `^` under `re.MULTILINE`: the start of the text or just after a `'\n'`. */
  predicate LineStart(s: string, p: nat)
    requires p <= |s|
  {
    p == 0 || s[p - 1] == '\n'
  }

  /** What `re.match` of one pattern yields on a text. The scan below is stated for any
      matcher with the properties the four import patterns share, so that its proofs never
      look inside a pattern. */
  type Matcher = string -> Option<Hit>

  function MatcherOf(syn: Syntax): Matcher {
    t => Match(syn, t)
  }

  /** A hit inside `t` that ends after a non-empty group and one more character. */
  predicate HitIn(t: string, h: Hit) {
    1 <= h.start < h.end - 1 < |t|
  }

  ghost predicate Anchored(m: Matcher) {
    forall t :: m(t).Some? ==> HitIn(t, m(t).value)
  }

  /** The group is the text the hit spans, less its last character. */
  ghost predicate Grouped(m: Matcher) {
    && Anchored(m)
    && forall t :: m(t).Some? ==> m(t).value.group == t[m(t).value.start..m(t).value.end - 1]
  }

  /** A leading `\s*` (which runs over `'\n'` too): a whitespace character in front shifts
      the match by one. */
  ghost predicate SkipsSpace(m: Matcher) {
    forall t {:trigger m(t[1..])} :: 0 < |t| && IsSpace(t[0]) ==> m(t) == LaterOpt(m(t[1..]), 1)
  }

  /** No look-ahead past the end of a match: cutting the text after the match keeps it,
      and a match of a prefix is still a match of the whole. */
  ghost predicate PrefixClosed(m: Matcher) {
    && (forall t, n: nat {:trigger m(t[..n])} :: n <= |t| && m(t[..n]).Some? ==> m(t).Some?)
    && (forall t, n: nat {:trigger m(t[..n])} :: n <= |t| && m(t).Some? && m(t).value.end <= n ==> m(t[..n]) == m(t))
  }

  ghost predicate Regular(m: Matcher) {
    Anchored(m) && SkipsSpace(m) && PrefixClosed(m)
  }

  lemma MatcherAnchored(syn: Syntax)
    ensures Grouped(MatcherOf(syn))
  {
    var m := MatcherOf(syn);
    forall t | m(t).Some?
      ensures HitIn(t, m(t).value) && m(t).value.group == t[m(t).value.start..m(t).value.end - 1]
    {
      MatchFacts(syn, t);
    }
  }

  lemma MatcherSkipsSpace(syn: Syntax)
    ensures SkipsSpace(MatcherOf(syn))
  {
    var m := MatcherOf(syn);
    forall t | 0 < |t| && IsSpace(t[0]) ensures m(t) == LaterOpt(m(t[1..]), 1) {
      assert t == [t[0]] + t[1..];
      MatchAfterSpaces(syn, [t[0]], t[1..]);
    }
  }

  /** A run of `n` whitespace characters in front shifts the match by `n`. */
  lemma {:induction false} SpacesShift(m: Matcher, t: string, n: nat)
    requires SkipsSpace(m) && n <= |t| && AllSpace(t[..n])
    ensures m(t) == LaterOpt(m(t[n..]), n)
    decreases n
  {
    if n == 0 {
      assert t[0..] == t;
      assert LaterOpt(m(t), 0) == m(t);
    } else {
      assert t[..n][0] == t[0];
      assert m(t) == LaterOpt(m(t[1..]), 1);
      assert t[1..][..n - 1] == t[..n][1..];
      SpacesShift(m, t[1..], n - 1);
      assert t[1..][n - 1..] == t[n..];
      LaterLater(m(t[n..]), n - 1);
    }
  }

  lemma MatcherPrefixClosed(syn: Syntax)
    ensures PrefixClosed(MatcherOf(syn))
  {
    var m := MatcherOf(syn);
    forall t, n: nat | n <= |t| && m(t[..n]).Some? ensures m(t).Some? {
      MatchPrefixGrows(syn, t, n);
    }
    forall t, n: nat | n <= |t| && m(t).Some? && m(t).value.end <= n ensures m(t[..n]) == m(t) {
      MatchPrefixSame(syn, t, n);
    }
  }

  /** The four import patterns have the properties the scan relies on. */
  lemma MatcherRegular(syn: Syntax)
    ensures Regular(MatcherOf(syn))
  {
    MatcherAnchored(syn);
    MatcherSkipsSpace(syn);
    MatcherPrefixClosed(syn);
  }

  /** A match found in `s` beyond position `i`, at absolute positions. */
  predicate Found(s: string, i: nat, h: Hit) {
    i < h.start < h.end - 1 < |s| && h.group == s[h.start..h.end - 1]
  }

  /** The matches `re.finditer` reports when scanning `s` from position `i`: at each
      position where `^` holds and the pattern matches, take the match and resume at its
      end; otherwise move one character on. */
  function ScanFrom(m: Matcher, s: string, i: nat): seq<Hit>
    requires Anchored(m) && i <= |s|
    decreases |s| - i
  {
    if LineStart(s, i) && m(s[i..]).Some? then
      var h := Later(m(s[i..]).value, i);
      assert HitIn(s[i..], m(s[i..]).value);
      [h] + ScanFrom(m, s, h.end)
    else if i == |s| then []
    else ScanFrom(m, s, i + 1)
  }

  /** A match of the suffix from `i`, moved to absolute positions, is found in `s`. */
  lemma HitAt(m: Matcher, s: string, i: nat)
    requires Grouped(m) && i <= |s| && m(s[i..]).Some?
    ensures Found(s, i, Later(m(s[i..]).value, i))
  {
    var t := s[i..];
    var h := m(t).value;
    assert HitIn(t, h);
    assert t[h.start..h.end - 1] == s[i + h.start..i + h.end - 1];
  }

  /** The scan reports non-overlapping matches beyond its starting point, in order. */
  lemma {:induction false} ScanFound(m: Matcher, s: string, i: nat)
    requires Grouped(m) && i <= |s|
    ensures var hs := ScanFrom(m, s, i);
      && (forall k :: 0 <= k < |hs| ==> Found(s, i, hs[k]))
      && (forall k, l :: 0 <= k < l < |hs| ==> hs[k].end <= hs[l].start)
    decreases |s| - i
  {
    if LineStart(s, i) && m(s[i..]).Some? {
      var h := Later(m(s[i..]).value, i);
      HitAt(m, s, i);
      ScanFound(m, s, h.end);
      var hs := ScanFrom(m, s, i);
      assert hs == [h] + ScanFrom(m, s, h.end);
      forall k | 0 < k < |hs| ensures Found(s, h.end, hs[k]) {
        assert hs[k] == ScanFrom(m, s, h.end)[k - 1];
      }
    } else if i < |s| {
      ScanMiss(m, s, i);
      ScanFound(m, s, i + 1);
    }
  }

  /** Every group the scan reports is one the matcher can yield. */
  lemma {:induction false} ScanYields(m: Matcher, ok: string -> bool, s: string, i: nat)
    requires Anchored(m) && i <= |s|
    requires forall t :: m(t).Some? ==> ok(m(t).value.group)
    ensures forall k :: 0 <= k < |ScanFrom(m, s, i)| ==> ok(ScanFrom(m, s, i)[k].group)
    decreases |s| - i
  {
    if LineStart(s, i) && m(s[i..]).Some? {
      ScanYields(m, ok, s, i + m(s[i..]).value.end);
    } else if i < |s| {
      ScanYields(m, ok, s, i + 1);
    }
  }

  /** The groups of a sequence of matches, in order. */
  function Groups(hs: seq<Hit>): (r: seq<string>)
    ensures |r| == |hs|
    ensures forall k :: 0 <= k < |hs| ==> r[k] == hs[k].group
  {
    if |hs| == 0 then [] else [hs[0].group] + Groups(hs[1..])
  }

  lemma GroupsCons(h: Hit, hs: seq<Hit>)
    ensures Groups([h] + hs) == [h.group] + Groups(hs)
  {
    assert ([h] + hs)[1..] == hs;
  }

  /** What `re.findall(pattern, content, re.MULTILINE)` returns: the group of every match,
      each a non-empty text of the pattern's group class. */
  function FindAll(syn: Syntax, content: string): (r: seq<string>)
    ensures forall k :: 0 <= k < |r| ==> TokenShape(syn, r[k])
  {
    MatcherAnchored(syn);
    var m := MatcherOf(syn);
    forall t | m(t).Some? ensures TokenShape(syn, m(t).value.group) {
      MatchFacts(syn, t);
    }
    ScanYields(m, g => TokenShape(syn, g), content, 0);
    Groups(ScanFrom(m, content, 0))
  }

  /** The tokens are the texts of non-overlapping matches, in order of occurrence, so each
      one appears in the content. */
  lemma FindAllFacts(syn: Syntax, content: string)
    ensures Grouped(MatcherOf(syn))
    ensures var hs := ScanFrom(MatcherOf(syn), content, 0);
      && FindAll(syn, content) == Groups(hs)
      && (forall k :: 0 <= k < |hs| ==> Found(content, 0, hs[k]))
      && (forall k, l :: 0 <= k < l < |hs| ==> hs[k].end <= hs[l].start)
  {
    MatcherAnchored(syn);
    ScanFound(MatcherOf(syn), content, 0);
  }

  lemma FindAllContains(syn: Syntax, content: string)
    ensures forall k :: 0 <= k < |FindAll(syn, content)| ==> Contains(content, FindAll(syn, content)[k])
  {
    FindAllFacts(syn, content);
    var hs := ScanFrom(MatcherOf(syn), content, 0);
    forall k | 0 <= k < |hs| ensures Contains(content, hs[k].group) {
      var h := hs[k];
      assert content[h.start..][..|h.group|] == h.group;
      ContainsAt(content, h.group, h.start);
    }
  }

  /** `parse` of a whole-text parser class: `None` for `PythonParser`, whose extraction is
      not modelled here. */
  function Parse(p: Parser, content: string): (r: Option<seq<string>>)
    ensures r.None? <==> p == PythonParser
    ensures r.Some? ==> forall k :: 0 <= k < |r.value| ==> TokenShape(PatternOf(p).value, r.value[k])
  {
    match PatternOf(p)
    case None => None
    case Some(syn) => Some(FindAll(syn, content))
  }

  // ---------------------------------------------------------------------------
  // Lines of the content
  // ---------------------------------------------------------------------------

  /** The index of the `'\n'` ending the line that holds position `i`, or `|s|`. */
  function LineEnd(s: string, i: nat): (j: nat)
    requires i <= |s|
    ensures i <= j <= |s|
    ensures forall k :: i <= k < j ==> s[k] != '\n'
    ensures j < |s| ==> s[j] == '\n'
    decreases |s| - i
  {
    if i == |s| || s[i] == '\n' then i else LineEnd(s, i + 1)
  }

  lemma {:induction false} LineEndWithin(s: string, i: nat, m: nat)
    requires i <= |s| && i <= m <= LineEnd(s, i)
    ensures LineEnd(s, m) == LineEnd(s, i)
    decreases m - i
  {
    if i < m {
      LineEndWithin(s, i + 1, m);
    }
  }

  /** Where the scan goes once the line holding `i` is done: the next line, if any. */
  function AfterLine(m: Matcher, s: string, i: nat): seq<Hit>
    requires Anchored(m) && i <= |s|
  {
    var j := LineEnd(s, i);
    if j < |s| then ScanFrom(m, s, j + 1) else []
  }

  /** Away from a line start, the scan finds nothing before the next line. */
  lemma {:induction false} SkipLine(m: Matcher, s: string, i: nat)
    requires Anchored(m) && 0 < i <= |s| && s[i - 1] != '\n'
    ensures ScanFrom(m, s, i) == AfterLine(m, s, i)
    decreases |s| - i
  {
    if i < |s| && s[i] != '\n' {
      SkipLine(m, s, i + 1);
    }
  }

  /** From inside a line, the scan finds nothing before the next line. */
  lemma SkipRest(m: Matcher, s: string, i: nat, k: nat)
    requires Anchored(m) && i <= |s| && i < k <= LineEnd(s, i)
    ensures ScanFrom(m, s, k) == AfterLine(m, s, i)
  {
    assert s[k - 1] != '\n';
    SkipLine(m, s, k);
    LineEndWithin(s, i, k);
  }

  lemma BlankNone(m: Matcher, w: string)
    requires Anchored(m) && SkipsSpace(m) && AllSpace(w)
    ensures m(w).None?
  {
    assert w[..|w|] == w;
    SpacesShift(m, w, |w|);
    assert m(w[|w|..]).None?;
  }

  /** One step of the scan at a position where `^` holds and the pattern matches. */
  lemma ScanHit(m: Matcher, s: string, i: nat)
    requires Anchored(m) && i <= |s| && LineStart(s, i) && m(s[i..]).Some?
    ensures i + m(s[i..]).value.end <= |s|
    ensures ScanFrom(m, s, i) == [Later(m(s[i..]).value, i)] + ScanFrom(m, s, i + m(s[i..]).value.end)
  {
    assert HitIn(s[i..], m(s[i..]).value);
  }

  /** One step of the scan at a position where nothing matches. */
  lemma ScanMiss(m: Matcher, s: string, i: nat)
    requires Anchored(m) && i < |s| && !(LineStart(s, i) && m(s[i..]).Some?)
    ensures ScanFrom(m, s, i) == ScanFrom(m, s, i + 1)
  {
  }

  /** A line of whitespace only: the pattern's leading `\s*` runs over it, so the scan
      proceeds as if it started on the next line. */
  lemma BlankLine(m: Matcher, s: string, i: nat)
    requires Anchored(m) && SkipsSpace(m) && i <= |s| && LineStart(s, i) && AllSpace(s[i..LineEnd(s, i)])
    ensures ScanFrom(m, s, i) == AfterLine(m, s, i)
  {
    if LineEnd(s, i) == |s| {
      BlankLast(m, s, i);
    } else {
      BlankNext(m, s, i, LineEnd(s, i));
    }
  }

  /** A blank line, ending at `j`, with a next line: the scan proceeds as if it started there. */
  lemma BlankNext(m: Matcher, s: string, i: nat, j: nat)
    requires Anchored(m) && SkipsSpace(m) && i <= |s| && LineStart(s, i)
    requires j == LineEnd(s, i) < |s| && AllSpace(s[i..j])
    ensures ScanFrom(m, s, i) == AfterLine(m, s, i)
  {
    BlankBefore(m, s, i, j);
    AfterLineNext(m, s, i, j);
  }

  /** A blank last line: nothing matches on it. */
  lemma BlankLast(m: Matcher, s: string, i: nat)
    requires Anchored(m) && SkipsSpace(m) && i <= |s| && LineEnd(s, i) == |s| && AllSpace(s[i..|s|])
    ensures ScanFrom(m, s, i) == AfterLine(m, s, i)
  {
    assert m(s[i..]).None? by {
      assert s[i..] == s[i..|s|];
      BlankNone(m, s[i..]);
    }
    if i < |s| {
      ScanMiss(m, s, i);
      SkipRest(m, s, i, i + 1);
    }
  }

  /** A blank line followed by more text: whatever matches after it matches from its start. */
  lemma BlankBefore(m: Matcher, s: string, i: nat, j: nat)
    requires Anchored(m) && SkipsSpace(m)
    requires i <= j < |s| && LineStart(s, i) && j == LineEnd(s, i) && AllSpace(s[i..j])
    ensures ScanFrom(m, s, i) == ScanFrom(m, s, j + 1)
  {
    BlankSplit(s, i, j);
    SpacesShift(m, s[i..], j + 1 - i);
    if m(s[j + 1..]).None? {
      LineMissScan(m, s, i);
    } else {
      BlankThenHit(m, s, i, j);
    }
  }

  lemma BlankThenHit(m: Matcher, s: string, i: nat, j: nat)
    requires Anchored(m) && i <= j < |s| && s[j] == '\n' && LineStart(s, i) && m(s[j + 1..]).Some?
    requires m(s[i..]) == LaterOpt(m(s[j + 1..]), j + 1 - i)
    ensures ScanFrom(m, s, i) == ScanFrom(m, s, j + 1)
  {
    var h := m(s[j + 1..]).value;
    assert Later(m(s[i..]).value, i) == Later(h, j + 1);
    ScanHit(m, s, i);
    ScanHit(m, s, j + 1);
  }

  lemma BlankSplit(s: string, i: nat, j: nat)
    requires i <= j < |s| && s[j] == '\n' && AllSpace(s[i..j])
    ensures AllSpace(s[i..][..j + 1 - i])
    ensures s[i..][j + 1 - i..] == s[j + 1..]
  {
    var w := s[i..][..j + 1 - i];
    forall k | 0 <= k < |w| ensures IsSpace(w[k]) {
      if k < j - i {
        assert w[k] == s[i..j][k];
      }
    }
  }

  /** No match starting at `i` runs past the end of its line, unless the line is blank. */
  predicate LineSafe(m: Matcher, s: string, i: nat)
    requires i <= |s|
  {
    var j := LineEnd(s, i);
    AllSpace(s[i..j]) || m(s[i..]).None? || m(s[i..]).value.end <= j - i
  }

  /** What one line contributes to a line-based parse with matcher `m`. */
  function LineHit(m: Matcher, line: string): (r: seq<string>)
    ensures |r| <= 1
    ensures r != [] <==> m(line).Some?
  {
    if m(line).Some? then [m(line).value.group] else []
  }

  lemma LineSlice(s: string, i: nat, j: nat)
    requires i <= j <= |s|
    ensures s[i..][..j - i] == s[i..j]
  {
  }

  /** A line on which nothing matches adds nothing. */
  lemma LineMiss(m: Matcher, s: string, i: nat)
    requires Anchored(m) && PrefixClosed(m) && i < |s| && m(s[i..]).None?
    ensures LineHit(m, s[i..LineEnd(s, i)]) == []
    ensures ScanFrom(m, s, i) == AfterLine(m, s, i)
  {
    var j := LineEnd(s, i);
    LineSlice(s, i, j);
    assert m(s[i..][..j - i]).None?;
    LineMissScan(m, s, i);
  }

  lemma LineMissScan(m: Matcher, s: string, i: nat)
    requires Anchored(m) && i < |s| && m(s[i..]).None?
    ensures ScanFrom(m, s, i) == AfterLine(m, s, i)
  {
    ScanMiss(m, s, i);
    if s[i] != '\n' {
      SkipLine(m, s, i + 1);
      LineEndWithin(s, i, i + 1);
    }
  }

  /** A match that ends within its line adds its group; the scan resumes on the next line. */
  lemma LineMatch(m: Matcher, s: string, i: nat)
    requires Anchored(m) && PrefixClosed(m) && i < |s| && LineStart(s, i) && m(s[i..]).Some?
    requires m(s[i..]).value.end <= LineEnd(s, i) - i
    ensures LineHit(m, s[i..LineEnd(s, i)]) == [m(s[i..]).value.group]
    ensures ScanFrom(m, s, i) == [Later(m(s[i..]).value, i)] + AfterLine(m, s, i)
  {
    LineMatchHit(m, s, i);
    LineMatchScan(m, s, i);
  }

  lemma LineMatchHit(m: Matcher, s: string, i: nat)
    requires PrefixClosed(m) && i < |s| && m(s[i..]).Some?
    requires m(s[i..]).value.end <= LineEnd(s, i) - i
    ensures LineHit(m, s[i..LineEnd(s, i)]) == [m(s[i..]).value.group]
  {
    var j := LineEnd(s, i);
    LineSlice(s, i, j);
    assert m(s[i..][..j - i]) == m(s[i..]);
  }

  lemma LineMatchScan(m: Matcher, s: string, i: nat)
    requires Anchored(m) && i < |s| && LineStart(s, i) && m(s[i..]).Some?
    requires m(s[i..]).value.end <= LineEnd(s, i) - i
    ensures ScanFrom(m, s, i) == [Later(m(s[i..]).value, i)] + AfterLine(m, s, i)
  {
    var h := m(s[i..]).value;
    ScanHit(m, s, i);
    assert HitIn(s[i..], h);
    SkipRest(m, s, i, i + h.end);
  }

  /** One line of a scan: what the line-based parser takes from the line, then the rest. */
  lemma LineStep(m: Matcher, s: string, i: nat)
    requires Regular(m) && i < |s| && LineStart(s, i) && LineSafe(m, s, i)
    ensures Groups(ScanFrom(m, s, i)) == LineHit(m, s[i..LineEnd(s, i)]) + Groups(AfterLine(m, s, i))
  {
    var j := LineEnd(s, i);
    if AllSpace(s[i..j]) {
      BlankNone(m, s[i..j]);
      BlankLine(m, s, i);
    } else if m(s[i..]).None? {
      LineMiss(m, s, i);
    } else {
      LineMatch(m, s, i);
      GroupsCons(Later(m(s[i..]).value, i), AfterLine(m, s, i));
    }
  }

  // ---------------------------------------------------------------------------
  // Agreement with the line-based parsers
  // ---------------------------------------------------------------------------

  /** The line-based parse with matcher `m` of a sequence of lines. */
  function PerLineHits(m: Matcher, lines: seq<string>): (r: seq<string>)
    ensures |r| <= |lines|
  {
    if |lines| == 0 then [] else LineHit(m, lines[0]) + PerLineHits(m, lines[1..])
  }

  /** With the matcher of a pattern, this is the line-based parser's result. */
  lemma {:induction false} PerLineHitsOf(syn: Syntax, lines: seq<string>)
    ensures PerLineHits(MatcherOf(syn), lines) == PerLine(syn, lines)
    decreases |lines|
  {
    if |lines| > 0 {
      PerLineHitsOf(syn, lines[1..]);
    }
  }

  /** Every line boundary `str.splitlines` knows is a `'\n'`. */
  predicate NewlinesOnly(s: string) {
    forall k :: 0 <= k < |s| ==> IsLineBoundary(s[k]) ==> s[k] == '\n'
  }

  /** No statement on a non-blank line runs on into the next line. */
  predicate SafeLines(m: Matcher, s: string) {
    forall i {:trigger LineSafe(m, s, i)} :: 0 <= i < |s| && LineStart(s, i) ==> LineSafe(m, s, i)
  }

  /** The lines of `s` from the line start `i` on, read off `'\n'` positions. */
  function LinesAt(s: string, i: nat): seq<string>
    requires i <= |s|
    decreases |s| - i
  {
    if i == |s| then []
    else
      var j := LineEnd(s, i);
      [s[i..j]] + if j < |s| then LinesAt(s, j + 1) else []
  }

  /** When `'\n'` is the only line boundary, these are the lines `str.splitlines` gives. */
  lemma {:induction false} LinesAtSplit(s: string, i: nat)
    requires NewlinesOnly(s) && i <= |s|
    ensures LinesAt(s, i) == SplitLines(s[i..])
    decreases |s| - i
  {
    if i == |s| {
      assert s[i..] == "";
    } else {
      var j := LineEnd(s, i);
      LineNoBoundary(s, i, j);
      if j == |s| {
        assert s[i..] == s[i..j];
        SplitLinesSingle(s[i..j]);
      } else {
        LineSplit(s, i, j);
        SplitLinesCons(s[i..j], s[j + 1..]);
        LinesAtSplit(s, j + 1);
      }
    }
  }

  lemma PerLineHitsCons(m: Matcher, line: string, rest: seq<string>)
    ensures PerLineHits(m, [line] + rest) == LineHit(m, line) + PerLineHits(m, rest)
  {
    assert ([line] + rest)[1..] == rest;
  }

  lemma LineNoBoundary(s: string, i: nat, j: nat)
    requires NewlinesOnly(s) && i <= j <= |s| && forall k :: i <= k < j ==> s[k] != '\n'
    ensures NoBoundary(s[i..j])
  {
    var line := s[i..j];
    forall k | 0 <= k < |line| ensures !IsLineBoundary(line[k]) {
      assert line[k] == s[i + k];
    }
  }

  lemma LineSplit(s: string, i: nat, j: nat)
    requires i <= j < |s| && s[j] == '\n'
    ensures s[i..] == s[i..j] + "\n" + s[j + 1..]
  {
  }

  lemma {:induction false} AgreeFrom(m: Matcher, s: string, i: nat)
    requires Regular(m) && i <= |s| && LineStart(s, i) && SafeLines(m, s)
    ensures Groups(ScanFrom(m, s, i)) == PerLineHits(m, LinesAt(s, i))
    decreases |s| - i
  {
    if i == |s| {
      AgreeEnd(m, s);
    } else {
      var j := LineEnd(s, i);
      if j < |s| {
        assert LineStart(s, j + 1);
        AgreeFrom(m, s, j + 1);
      }
      AgreeLine(m, s, i, j);
    }
  }

  /** One line, ending at `j`, keeps the agreement that holds from the next line on. */
  lemma AgreeLine(m: Matcher, s: string, i: nat, j: nat)
    requires Regular(m) && i < |s| && LineStart(s, i) && SafeLines(m, s) && j == LineEnd(s, i)
    requires j < |s| ==> Groups(ScanFrom(m, s, j + 1)) == PerLineHits(m, LinesAt(s, j + 1))
    ensures Groups(ScanFrom(m, s, i)) == PerLineHits(m, LinesAt(s, i))
  {
    AgreeTail(m, s, i, j);
    assert LineSafe(m, s, i);
    AgreeStep(m, s, i);
  }


  /** The lines after the one holding `i`. */
  function NextLines(s: string, i: nat): seq<string>
    requires i <= |s|
  {
    var j := LineEnd(s, i);
    if j < |s| then LinesAt(s, j + 1) else []
  }

  /** Agreement from the next line on is agreement on what follows the line holding `i`. */
  lemma AgreeTail(m: Matcher, s: string, i: nat, j: nat)
    requires Anchored(m) && i <= |s| && j == LineEnd(s, i)
    requires j < |s| ==> Groups(ScanFrom(m, s, j + 1)) == PerLineHits(m, LinesAt(s, j + 1))
    ensures Groups(AfterLine(m, s, i)) == PerLineHits(m, NextLines(s, i))
  {
    if j < |s| {
      AfterLineNext(m, s, i, j);
      NextLinesNext(s, i, j);
    } else {
      AfterLineLast(m, s, i, j);
    }
  }

  lemma AfterLineNext(m: Matcher, s: string, i: nat, j: nat)
    requires Anchored(m) && i <= |s| && j == LineEnd(s, i) < |s|
    ensures AfterLine(m, s, i) == ScanFrom(m, s, j + 1)
  {
  }

  lemma NextLinesNext(s: string, i: nat, j: nat)
    requires i <= |s| && j == LineEnd(s, i) < |s|
    ensures NextLines(s, i) == LinesAt(s, j + 1)
  {
  }

  lemma AfterLineLast(m: Matcher, s: string, i: nat, j: nat)
    requires Anchored(m) && i <= |s| && j == LineEnd(s, i) == |s|
    ensures AfterLine(m, s, i) == [] && NextLines(s, i) == []
  {
  }

  lemma LinesAtCons(s: string, i: nat)
    requires i < |s|
    ensures LinesAt(s, i) == [s[i..LineEnd(s, i)]] + NextLines(s, i)
  {
  }

  /** At the end of the text neither parser finds anything more. */
  lemma AgreeEnd(m: Matcher, s: string)
    requires Anchored(m)
    ensures Groups(ScanFrom(m, s, |s|)) == [] && PerLineHits(m, LinesAt(s, |s|)) == []
  {
    assert s[|s|..] == [];
    assert m(s[|s|..]).Some? ==> HitIn(s[|s|..], m(s[|s|..]).value);
  }

  /** One line of the agreement: the line's own hit, then the lines after it. */
  lemma AgreeStep(m: Matcher, s: string, i: nat)
    requires Regular(m) && i < |s| && LineStart(s, i) && LineSafe(m, s, i)
    requires Groups(AfterLine(m, s, i)) == PerLineHits(m, NextLines(s, i))
    ensures Groups(ScanFrom(m, s, i)) == PerLineHits(m, LinesAt(s, i))
  {
    var line := s[i..LineEnd(s, i)];
    var rest := NextLines(s, i);
    assert Groups(ScanFrom(m, s, i)) == LineHit(m, line) + PerLineHits(m, rest) by {
      LineStep(m, s, i);
    }
    LinesAtCons(s, i);
    PerLineHitsCons(m, line, rest);
  }

  /** On content whose lines end in `'\n'` and whose statements each sit on one line, the
      whole-text and the line-based parsers return the same tokens. */
  lemma FindAllAgrees(syn: Syntax, s: string)
    requires NewlinesOnly(s) && SafeLines(MatcherOf(syn), s)
    ensures FindAll(syn, s) == Tokens(syn, s)
  {
    MatcherRegular(syn);
    AgreeFrom(MatcherOf(syn), s, 0);
    LinesAtSplit(s, 0);
    assert s[0..] == s;
    PerLineHitsOf(syn, SplitLines(s));
  }

  /** A single line is always handled alike by both styles. */
  lemma OneLineAgrees(syn: Syntax, line: string)
    requires NoBoundary(line)
    ensures FindAll(syn, line) == Tokens(syn, line)
  {
    var m := MatcherOf(syn);
    MatcherAnchored(syn);
    forall i | 0 <= i < |line| && LineStart(line, i) ensures LineSafe(m, line, i) {
      assert LineEnd(line, 0) == |line|;
      assert line[0..] == line;
    }
    FindAllAgrees(syn, line);
  }
}
