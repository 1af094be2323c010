/** The four regular expressions of the line-oriented extractors, as hand-written matchers
    with Python `re.match` semantics (anchored at the start, greedy with backtracking):

      Using     ^\s*using\s+([\w.]+);
      Import    ^\s*import\s+([\w.]+);
      JsImport  ^\s*import\s+.*\s+from\s+['"](.+)['"]
      Include   ^\s*#include\s+[<"]([^">]+)[">]

    Each matcher is proved against a declarative description of what the pattern admits
    (a "shape": the positions where each piece of the pattern starts), so that the search
    order it uses is shown to be the one Python's backtracking produces. */
module Patterns {
  import opened Strings
  import opened Wrappers

  datatype Syntax = Using | Import | JsImport | Include

  /** A match of the pattern against `s[..end]`; group 1 is `s[start..end - 1]`. */
  datatype Hit = Hit(group: string, start: nat, end: nat)

  // ---------------------------------------------------------------------------
  // Character classes of the patterns
  // ---------------------------------------------------------------------------

  /** `[\w.]` */
  predicate IsQualifiedChar(c: char) { IsWordChar(c) || c == '.' }

  /** `[^">]` */
  predicate IsIncludeChar(c: char) { c != '"' && c != '>' }

  /** `.` (without DOTALL it matches everything except a newline) */
  predicate NotNewline(c: char) { c != '\n' }

  /** `['"]` */
  predicate IsQuote(c: char) { c == '\'' || c == '"' }

  /** `[<"]` */
  predicate IsIncludeOpen(c: char) { c == '<' || c == '"' }

  /** `[">]` */
  predicate IsIncludeClose(c: char) { c == '"' || c == '>' }

  /** Every character of `s[i..j]` satisfies `p`. */
  ghost predicate All(s: string, i: nat, j: nat, p: char -> bool) {
    forall k :: i <= k < j && k < |s| ==> p(s[k])
  }

  /** A greedy run: the first index at or after `i` whose character fails `p`, or `|s|`. */
  function Span(s: string, i: nat, p: char -> bool): (j: nat)
    requires i <= |s|
    ensures i <= j <= |s|
    ensures forall k :: i <= k < j ==> p(s[k])
    ensures j < |s| ==> !p(s[j])
    decreases |s| - i
  {
    if i == |s| || !p(s[i]) then i else Span(s, i + 1, p)
  }

  /** A run is determined by where it stops. */
  lemma {:induction false} SpanAt(s: string, i: nat, j: nat, p: char -> bool)
    requires i <= j <= |s| && All(s, i, j, p) && (j < |s| ==> !p(s[j]))
    ensures Span(s, i, p) == j
    decreases j - i
  {
    if i < j {
      assert p(s[i]);
      SpanAt(s, i + 1, j, p);
    }
  }

  /** A run covering `s[i..j]` reaches at least `j`. */
  lemma {:induction false} SpanCovers(s: string, i: nat, j: nat, p: char -> bool)
    requires i <= j <= |s| && All(s, i, j, p)
    ensures Span(s, i, p) >= j
    decreases j - i
  {
    if i < j {
      assert p(s[i]);
      SpanCovers(s, i + 1, j, p);
    }
  }

  // ---------------------------------------------------------------------------
  // ^\s*KW\s+([\w.]+);   (KW is "using" or "import")
  // ---------------------------------------------------------------------------

  /** What the pattern admits: `s[..a]` is whitespace, then the keyword, then at least one
      whitespace character up to the group start, then a non-empty `[\w.]` group and `;`. */
  ghost predicate QualifiedShape(kw: string, s: string, a: nat, h: Hit) {
    && a + |kw| < h.start < h.end - 1 < |s|
    && All(s, 0, a, IsSpace) && s[a..a + |kw|] == kw
    && All(s, a + |kw|, h.start, IsSpace)
    && All(s, h.start, h.end - 1, IsQualifiedChar) && s[h.end - 1] == ';'
    && h.group == s[h.start..h.end - 1]
  }

  function MatchQualified(kw: string, s: string): Option<Hit> {
    var a := Span(s, 0, IsSpace);
    if !StartsWith(s[a..], kw) then None
    else
      var b := Span(s, a + |kw|, IsSpace);
      if b == a + |kw| then None
      else
        var m := Span(s, b, IsQualifiedChar);
        if m == b || m == |s| || s[m] != ';' then None
        else Some(Hit(s[b..m], b, m + 1))
  }

  lemma QualifiedSound(kw: string, s: string)
    requires MatchQualified(kw, s).Some?
    ensures exists a :: QualifiedShape(kw, s, a, MatchQualified(kw, s).value)
  {
    var a := Span(s, 0, IsSpace);
    assert s[a..][..|kw|] == s[a..a + |kw|];
    assert QualifiedShape(kw, s, a, MatchQualified(kw, s).value);
  }

  /** The pattern admits at most one match, and the matcher finds it. */
  lemma QualifiedComplete(kw: string, s: string, a: nat, h: Hit)
    requires |kw| > 0 && !IsSpace(kw[0])
    requires QualifiedShape(kw, s, a, h)
    ensures MatchQualified(kw, s) == Some(h)
  {
    assert s[a] == kw[0];
    SpanAt(s, 0, a, IsSpace);
    assert s[a..][..|kw|] == kw;
    SpanAt(s, a + |kw|, h.start, IsSpace);
    SpanAt(s, h.start, h.end - 1, IsQualifiedChar);
  }

  // ---------------------------------------------------------------------------
  // ^\s*#include\s+[<"]([^">]+)[">]
  // ---------------------------------------------------------------------------

  /** What the pattern admits: whitespace, `#include`, at least one whitespace character,
      an opening `<` or `"` just before the group, a non-empty group free of `"` and `>`,
      then a closing `"` or `>`. */
  ghost predicate IncludeShape(s: string, a: nat, h: Hit) {
    && a + 8 < h.start - 1 && h.start < h.end - 1 < |s|
    && All(s, 0, a, IsSpace) && s[a..a + 8] == "#include"
    && All(s, a + 8, h.start - 1, IsSpace) && IsIncludeOpen(s[h.start - 1])
    && All(s, h.start, h.end - 1, IsIncludeChar) && IsIncludeClose(s[h.end - 1])
    && h.group == s[h.start..h.end - 1]
  }

  function MatchInclude(s: string): Option<Hit> {
    var a := Span(s, 0, IsSpace);
    if !StartsWith(s[a..], "#include") then None
    else
      var b := Span(s, a + 8, IsSpace);
      if b == a + 8 || b == |s| || !IsIncludeOpen(s[b]) then None
      else
        var m := Span(s, b + 1, IsIncludeChar);
        if m == b + 1 || m == |s| then None
        else Some(Hit(s[b + 1..m], b + 1, m + 1))
  }

  lemma IncludeSound(s: string)
    requires MatchInclude(s).Some?
    ensures exists a :: IncludeShape(s, a, MatchInclude(s).value)
  {
    var a := Span(s, 0, IsSpace);
    assert s[a..][..8] == s[a..a + 8];
    assert IncludeShape(s, a, MatchInclude(s).value);
  }

  lemma IncludeComplete(s: string, a: nat, h: Hit)
    requires IncludeShape(s, a, h)
    ensures MatchInclude(s) == Some(h)
  {
    IncludeHead(s, a, h);
    SpanAt(s, a + 8, h.start - 1, IsSpace);
    SpanAt(s, h.start, h.end - 1, IsIncludeChar);
  }

  /** The leading whitespace and the keyword of an include line. */
  lemma IncludeHead(s: string, a: nat, h: Hit)
    requires IncludeShape(s, a, h)
    ensures Span(s, 0, IsSpace) == a && StartsWith(s[a..], "#include")
  {
    assert s[a] == '#';
    SpanAt(s, 0, a, IsSpace);
    assert s[a..][..8] == "#include";
  }

  // ---------------------------------------------------------------------------
  // ^\s*import\s+.*\s+from\s+['"](.+)['"]
  // ---------------------------------------------------------------------------

  /** What `\s+from\s+['"](.+)['"]` admits from position `e`: whitespace up to `f`, `from`,
      whitespace up to the opening quote at `h.start - 1`, a non-empty group without a
      newline, and a closing quote at `h.end - 1`. */
  ghost predicate RestShape(s: string, e: nat, f: nat, h: Hit) {
    && 1 <= h.start && e < f && f + 4 < h.start - 1 && h.start < h.end - 1 < |s|
    && All(s, e, f, IsSpace) && s[f..f + 4] == "from"
    && All(s, f + 4, h.start - 1, IsSpace) && IsQuote(s[h.start - 1])
    && All(s, h.start, h.end - 1, NotNewline) && IsQuote(s[h.end - 1])
    && h.group == s[h.start..h.end - 1]
  }

  /** What the whole pattern admits: whitespace, `import`, whitespace up to `p`, a run
      without newline (`.*`) up to `e`, then the rest from `e`. */
  ghost predicate JsShape(s: string, a: nat, p: nat, e: nat, f: nat, h: Hit) {
    && a + 6 < p <= e <= |s|
    && All(s, 0, a, IsSpace) && s[a..a + 6] == "import"
    && All(s, a + 6, p, IsSpace) && All(s, p, e, NotNewline)
    && RestShape(s, e, f, h)
  }

  /** Greedy `(.+)` followed by a quote: the last quote in `s[lo..hi)`. */
  function LastQuote(s: string, lo: nat, hi: nat): (r: Option<nat>)
    requires hi <= |s|
    ensures r.Some? ==> lo <= r.value < hi && IsQuote(s[r.value])
    ensures r.Some? ==> forall k :: r.value < k < hi ==> !IsQuote(s[k])
    ensures r.None? ==> forall k :: lo <= k < hi ==> !IsQuote(s[k])
    decreases hi
  {
    if hi <= lo then None
    else if IsQuote(s[hi - 1]) then Some(hi - 1)
    else LastQuote(s, lo, hi - 1)
  }

  /** `['"](.+)['"]` tried at position `q`. */
  function QuotedAt(s: string, q: nat): Option<Hit>
    requires q <= |s|
  {
    if q == |s| || !IsQuote(s[q]) then None
    else
      var l := Span(s, q + 1, NotNewline);
      match LastQuote(s, q + 2, l)
      case None => None
      case Some(r) => Some(Hit(s[q + 1..r], q + 1, r + 1))
  }

  /** `from\s+['"](.+)['"]` tried at position `f`. */
  function FromAt(s: string, f: nat): Option<Hit>
    requires f <= |s|
  {
    if !StartsWith(s[f..], "from") then None
    else
      var q := Span(s, f + 4, IsSpace);
      if q == f + 4 then None else QuotedAt(s, q)
  }

  /** `\s+from\s+['"](.+)['"]` tried at position `e`. */
  function RestAt(s: string, e: nat): Option<Hit>
    requires e <= |s|
  {
    var f := Span(s, e, IsSpace);
    if f == e then None else FromAt(s, f)
  }

  /** The largest `k` in `[lo, hi]` satisfying `ok`, found by counting down from `hi`. */
  function LastWhere(lo: nat, hi: nat, ok: nat -> bool): (r: Option<nat>)
    requires lo <= hi
    ensures r.Some? ==> lo <= r.value <= hi && ok(r.value)
    ensures r.Some? ==> forall k :: r.value < k <= hi ==> !ok(k)
    ensures r.None? ==> forall k :: lo <= k <= hi ==> !ok(k)
    decreases hi
  {
    if ok(hi) then Some(hi)
    else if hi == lo then None
    else LastWhere(lo, hi - 1, ok)
  }

  /** Whether the rest of the JavaScript pattern matches from `e`. */
  predicate RestMatches(s: string, e: nat) {
    e <= |s| && RestAt(s, e).Some?
  }

  function MatchJs(s: string): Option<Hit> {
    var a := Span(s, 0, IsSpace);
    if !StartsWith(s[a..], "import") then None
    else
      var w := Span(s, a + 6, IsSpace);
      if w == a + 6 then None
      else
        var l := Span(s, w, NotNewline);
        // greedy `.*`: the last end position from which the rest matches
        match LastWhere(a + 7, l, (e: nat) => RestMatches(s, e))
        case None => None
        case Some(e) => RestAt(s, e)
  }

  /** Python's choice among several matches: the later opening quote, then the later
      closing quote. */
  predicate Prefers(h2: Hit, h: Hit) {
    h2.start > h.start || (h2.start == h.start && h2.end >= h.end)
  }

  lemma RestSound(s: string, e: nat)
    requires e <= |s| && RestAt(s, e).Some?
    ensures RestShape(s, e, Span(s, e, IsSpace), RestAt(s, e).value)
  {
    var f := Span(s, e, IsSpace);
    assert s[f..][..4] == s[f..f + 4];
  }

  lemma RestComplete(s: string, e: nat, f: nat, h: Hit)
    requires e <= |s| && RestShape(s, e, f, h)
    ensures RestAt(s, e).Some?
    ensures RestAt(s, e).value.start == h.start && RestAt(s, e).value.end >= h.end
  {
    assert s[f] == 'f';
    SpanAt(s, e, f, IsSpace);
    assert s[f..][..4] == "from";
    var q := h.start - 1;
    SpanAt(s, f + 4, q, IsSpace);
    SpanCovers(s, q + 1, h.end, NotNewline);
  }

  /** A later start for the rest can only move the match to a later opening quote, or keep
      the same one. */
  lemma RestLater(s: string, e: nat, f: nat, h: Hit, e2: nat)
    requires e <= e2 <= |s| && RestShape(s, e, f, h) && RestAt(s, e2).Some?
    ensures Prefers(RestAt(s, e2).value, h)
  {
    RestSound(s, e2);
    if e2 < f {
      RestSameFrom(s, e, f, h, e2);
      RestComplete(s, e, f, h);
    } else {
      RestPastFrom(s, e, f, h, e2);
    }
  }

  /** Starting anywhere before the `from` finds the same `from`. */
  lemma RestSameFrom(s: string, e: nat, f: nat, h: Hit, e2: nat)
    requires e <= e2 < f && RestShape(s, e, f, h)
    ensures RestAt(s, e2) == RestAt(s, e)
  {
    assert s[f] == 'f';
    assert Span(s, e2, IsSpace) == f by { SpanAt(s, e2, f, IsSpace); }
    assert Span(s, e, IsSpace) == f by { SpanAt(s, e, f, IsSpace); }
  }

  /** The letters of `from` are not whitespace. */
  lemma FromNotSpace(s: string, f: nat)
    requires f + 4 <= |s| && s[f..f + 4] == "from"
    ensures forall k :: f <= k < f + 4 ==> !IsSpace(s[k])
  {
    forall k | f <= k < f + 4 ensures !IsSpace(s[k]) {
      assert s[k] == s[f..f + 4][k - f];
    }
  }

  /** Starting at or past the `from`, a match needs a `from` after the opening quote. */
  lemma RestPastFrom(s: string, e: nat, f: nat, h: Hit, e2: nat)
    requires f <= e2 <= |s| && RestShape(s, e, f, h) && RestAt(s, e2).Some?
    ensures Span(s, e2, IsSpace) >= h.start
  {
    assert s[Span(s, e2, IsSpace)] == 'f' && Span(s, e2, IsSpace) > e2 by { RestSound(s, e2); }
    NoFromBefore(s, e, f, h, e2);
  }

  /** From a whitespace character at or after `from` and before the opening quote, the run of
      whitespace stops at that quote, not at an `f`. */
  lemma NoFromBefore(s: string, e: nat, f: nat, h: Hit, e2: nat)
    requires f <= e2 <= |s| && RestShape(s, e, f, h)
    ensures e2 < h.start && Span(s, e2, IsSpace) > e2 ==> s[Span(s, e2, IsSpace)] != 'f'
  {
    if e2 < h.start && Span(s, e2, IsSpace) > e2 {
      FromNotSpace(s, f);
      SpanAt(s, e2, h.start - 1, IsSpace);
    }
  }

  lemma JsSound(s: string)
    requires MatchJs(s).Some?
    ensures exists a, p, e, f :: JsShape(s, a, p, e, f, MatchJs(s).value)
  {
    var a := Span(s, 0, IsSpace);
    assert s[a..][..6] == s[a..a + 6];
    var w := Span(s, a + 6, IsSpace);
    var l := Span(s, w, NotNewline);
    var e := LastWhere(a + 7, l, (e: nat) => RestMatches(s, e)).value;
    RestSound(s, e);
    var p := if e <= w then e else w;
    assert JsShape(s, a, p, e, Span(s, e, IsSpace), MatchJs(s).value);
  }

  /** Whenever the pattern admits a match, the matcher succeeds, with the match Python prefers. */
  lemma JsComplete(s: string, a: nat, p: nat, e: nat, f: nat, h: Hit)
    requires JsShape(s, a, p, e, f, h)
    ensures MatchJs(s).Some? && Prefers(MatchJs(s).value, h)
  {
    JsHead(s, a, p, e, f, h);
    JsWindow(s, a, p, e, f, h);
    var w := Span(s, a + 6, IsSpace);
    var l := Span(s, w, NotNewline);
    RestComplete(s, e, f, h);
    var ok := (k: nat) => RestMatches(s, k);
    assert ok(e);
    var r := LastWhere(a + 7, l, ok);
    assert r.Some? && r.value >= e;
    RestLater(s, e, f, h, r.value);
    assert MatchJs(s) == RestAt(s, r.value);
  }

  /** The leading whitespace and the keyword of an import line. */
  lemma JsHead(s: string, a: nat, p: nat, e: nat, f: nat, h: Hit)
    requires JsShape(s, a, p, e, f, h)
    ensures Span(s, 0, IsSpace) == a && StartsWith(s[a..], "import")
  {
    assert s[a] == 'i';
    SpanAt(s, 0, a, IsSpace);
    assert s[a..][..6] == "import";
  }

  /** The start of the rest lies in the window the greedy `.*` searches. */
  lemma JsWindow(s: string, a: nat, p: nat, e: nat, f: nat, h: Hit)
    requires JsShape(s, a, p, e, f, h)
    ensures var w := Span(s, a + 6, IsSpace);
      w > a + 6 && a + 7 <= e <= Span(s, w, NotNewline)
  {
    SpanCovers(s, a + 6, p, IsSpace);
    var w := Span(s, a + 6, IsSpace);
    if e > w {
      SpanCovers(s, w, e, NotNewline);
    }
  }


  /** The match of a line is the one its shape describes when no `f` follows that shape's
      `from` and no quote follows its closing quote: Python's search then has no later
      alternative to prefer. */
  lemma JsExact(s: string, a: nat, p: nat, e: nat, f: nat, h: Hit)
    requires JsShape(s, a, p, e, f, h)
    requires forall k :: f < k < |s| ==> s[k] != 'f'
    requires forall k :: h.end - 1 < k < |s| ==> !IsQuote(s[k])
    ensures Match(JsImport, s) == Some(h)
  {
    JsComplete(s, a, p, e, f, h);
    JsSound(s);
    var a2: nat, p2: nat, e2: nat, f2: nat :| JsShape(s, a2, p2, e2, f2, MatchJs(s).value);
    JsLastFrom(s, a, p, e, f, h, a2, p2, e2, f2, MatchJs(s).value);
  }

  lemma JsLastFrom(s: string, a: nat, p: nat, e: nat, f: nat, h: Hit,
                   a2: nat, p2: nat, e2: nat, f2: nat, h2: Hit)
    requires JsShape(s, a, p, e, f, h) && JsShape(s, a2, p2, e2, f2, h2) && Prefers(h2, h)
    requires forall k :: f < k < |s| ==> s[k] != 'f'
    requires forall k :: h.end - 1 < k < |s| ==> !IsQuote(s[k])
    ensures h2 == h
  {
    assert forall i :: 0 <= i < 4 ==> s[f2 + i] == "from"[i];
    assert forall i :: 0 <= i < 4 ==> s[f + i] == "from"[i];
    assert !IsSpace('f') && !IsSpace('\'') && !IsSpace('"');
    assert s[f] == 'f' && s[f2] == 'f' && h.start <= h2.start;
    assert forall k :: f2 < k < f2 + 4 ==> s[k] != 'f';
    assert forall k :: f2 + 4 <= k < h2.start - 1 ==> s[k] != 'f';
    assert f2 == f;
    assert forall k :: f + 4 <= k < h2.start - 1 ==> !IsQuote(s[k]);
    assert h2.start == h.start;
    assert h2.end == h.end;
  }

  /** The JavaScript pattern needs a `from`: the side-effect form `import 'x';` never
      matches. */
  lemma JsNeedsFrom(s: string)
    ensures MatchJs(s).Some? ==> Contains(s, "from")
  {
    if MatchJs(s).Some? {
      JsSound(s);
      var a: nat, p: nat, e: nat, f: nat :| JsShape(s, a, p, e, f, MatchJs(s).value);
      JsFrom(s, a, p, e, f, MatchJs(s).value);
    }
  }

  /** An admitted import line holds `from`. */
  lemma JsFrom(s: string, a: nat, p: nat, e: nat, f: nat, h: Hit)
    requires JsShape(s, a, p, e, f, h)
    ensures Contains(s, "from")
  {
    assert s[f..][..4] == s[f..f + 4];
    ContainsAt(s, "from", f);
  }

  // ---------------------------------------------------------------------------
  // The four patterns together
  // ---------------------------------------------------------------------------

  /** `re.match(pattern, s)` for the pattern of `syn`. */
  function Match(syn: Syntax, s: string): Option<Hit> {
    match syn
    case Using => MatchQualified("using", s)
    case Import => MatchQualified("import", s)
    case JsImport => MatchJs(s)
    case Include => MatchInclude(s)
  }

  /** The pattern of `syn` admits a match of `s[..h.end]` with group `h`. */
  ghost predicate Parse(syn: Syntax, s: string, h: Hit) {
    match syn
    case Using => exists a :: QualifiedShape("using", s, a, h)
    case Import => exists a :: QualifiedShape("import", s, a, h)
    case JsImport => exists a, p, e, f :: JsShape(s, a, p, e, f, h)
    case Include => exists a :: IncludeShape(s, a, h)
  }

  /** Every successful match is admitted by the pattern. */
  lemma MatchSound(syn: Syntax, s: string)
    requires Match(syn, s).Some?
    ensures Parse(syn, s, Match(syn, s).value)
  {
    match syn
    case Using => QualifiedSound("using", s);
    case Import => QualifiedSound("import", s);
    case JsImport => JsSound(s);
    case Include => IncludeSound(s);
  }

  /** Every match the pattern admits is found, or one Python prefers to it. */
  lemma MatchComplete(syn: Syntax, s: string, h: Hit)
    requires Parse(syn, s, h)
    ensures Match(syn, s).Some? && Prefers(Match(syn, s).value, h)
    ensures syn != JsImport ==> Match(syn, s) == Some(h)
  {
    match syn
    case Using =>
      var a :| QualifiedShape("using", s, a, h);
      QualifiedComplete("using", s, a, h);
    case Import =>
      var a :| QualifiedShape("import", s, a, h);
      QualifiedComplete("import", s, a, h);
    case JsImport =>
      var a, p, e, f :| JsShape(s, a, p, e, f, h);
      JsComplete(s, a, p, e, f, h);
    case Include =>
      var a :| IncludeShape(s, a, h);
      IncludeComplete(s, a, h);
  }

  /** What a group of each pattern looks like: non-empty, and made of the characters its
      group class admits. */
  predicate TokenShape(syn: Syntax, tok: string) {
    && |tok| > 0
    && match syn
       case Using => forall k :: 0 <= k < |tok| ==> IsQualifiedChar(tok[k])
       case Import => forall k :: 0 <= k < |tok| ==> IsQualifiedChar(tok[k])
       case JsImport => forall k :: 0 <= k < |tok| ==> NotNewline(tok[k])
       case Include => forall k :: 0 <= k < |tok| ==> IsIncludeChar(tok[k])
  }

  /** A match lies inside the text, after its first character, and its group is the text
      it spans less the last character. */
  lemma ParseBounds(syn: Syntax, s: string, h: Hit)
    requires Parse(syn, s, h)
    ensures 1 <= h.start < h.end - 1 < |s| && h.group == s[h.start..h.end - 1]
  {
    match syn
    case Using => var a :| QualifiedShape("using", s, a, h);
    case Import => var a :| QualifiedShape("import", s, a, h);
    case JsImport => var a, p, e, f :| JsShape(s, a, p, e, f, h);
    case Include => var a :| IncludeShape(s, a, h);
  }

  /** An admitted match lies inside `s`, its group is the non-empty text before the
      match's last character, and that group has the pattern's token shape. */
  lemma ParseFacts(syn: Syntax, s: string, h: Hit)
    requires Parse(syn, s, h)
    ensures 1 <= h.start < h.end - 1 < |s| && h.group == s[h.start..h.end - 1]
    ensures TokenShape(syn, h.group)
    ensures syn == Using || syn == Import ==> s[h.end - 1] == ';'
    ensures syn == Include ==> IsIncludeOpen(s[h.start - 1]) && IsIncludeClose(s[h.end - 1])
    ensures syn == JsImport ==> IsQuote(s[h.start - 1]) && IsQuote(s[h.end - 1])
  {
    match syn
    case Using => var a :| QualifiedShape("using", s, a, h);
    case Import => var a :| QualifiedShape("import", s, a, h);
    case JsImport => var a, p, e, f :| JsShape(s, a, p, e, f, h);
    case Include => var a :| IncludeShape(s, a, h);
  }

  lemma AllPrefix(t: string, n: nat, i: nat, j: nat, p: char -> bool)
    requires j <= n <= |t|
    ensures All(t, i, j, p) <==> All(t[..n], i, j, p)
  {
    assert forall k :: i <= k < j ==> t[k] == t[..n][k];
  }

  lemma QualifiedPrefix(kw: string, t: string, n: nat, a: nat, h: Hit)
    requires h.end <= n <= |t|
    ensures QualifiedShape(kw, t, a, h) <==> QualifiedShape(kw, t[..n], a, h)
  {
    if a + |kw| < h.start < h.end - 1 < |t| {
      AllPrefix(t, n, 0, a, IsSpace);
      AllPrefix(t, n, a + |kw|, h.start, IsSpace);
      AllPrefix(t, n, h.start, h.end - 1, IsQualifiedChar);
      assert t[a..a + |kw|] == t[..n][a..a + |kw|];
      assert t[h.start..h.end - 1] == t[..n][h.start..h.end - 1];
    }
  }

  lemma IncludePrefix(t: string, n: nat, a: nat, h: Hit)
    requires h.end <= n <= |t|
    ensures IncludeShape(t, a, h) <==> IncludeShape(t[..n], a, h)
  {
    if a + 8 < h.start - 1 && h.start < h.end - 1 < |t| {
      AllPrefix(t, n, 0, a, IsSpace);
      AllPrefix(t, n, a + 8, h.start - 1, IsSpace);
      AllPrefix(t, n, h.start, h.end - 1, IsIncludeChar);
      assert t[a..a + 8] == t[..n][a..a + 8];
      assert t[h.start..h.end - 1] == t[..n][h.start..h.end - 1];
    }
  }

  lemma JsPrefix(t: string, n: nat, a: nat, p: nat, e: nat, f: nat, h: Hit)
    requires h.end <= n <= |t|
    ensures JsShape(t, a, p, e, f, h) <==> JsShape(t[..n], a, p, e, f, h)
  {
    if 1 <= h.start && a + 6 < p <= e < f && f + 4 < h.start - 1 && h.start < h.end - 1 < |t| {
      AllPrefix(t, n, 0, a, IsSpace);
      AllPrefix(t, n, a + 6, p, IsSpace);
      AllPrefix(t, n, p, e, NotNewline);
      AllPrefix(t, n, e, f, IsSpace);
      AllPrefix(t, n, f + 4, h.start - 1, IsSpace);
      AllPrefix(t, n, h.start, h.end - 1, NotNewline);
      assert t[a..a + 6] == t[..n][a..a + 6];
      assert t[f..f + 4] == t[..n][f..f + 4];
      assert t[h.start..h.end - 1] == t[..n][h.start..h.end - 1];
    }
  }

  /** A match is admitted in `t` exactly when it is admitted in any prefix of `t` that
      contains it: the patterns never look past the end of their match. */
  lemma ParsePrefix(syn: Syntax, t: string, n: nat, h: Hit)
    requires h.end <= n <= |t|
    ensures Parse(syn, t, h) <==> Parse(syn, t[..n], h)
  {
    var u := t[..n];
    match syn
    case Using =>
      forall a ensures QualifiedShape("using", t, a, h) <==> QualifiedShape("using", u, a, h) {
        QualifiedPrefix("using", t, n, a, h);
      }
    case Import =>
      forall a ensures QualifiedShape("import", t, a, h) <==> QualifiedShape("import", u, a, h) {
        QualifiedPrefix("import", t, n, a, h);
      }
    case JsImport =>
      forall a, p, e, f ensures JsShape(t, a, p, e, f, h) <==> JsShape(u, a, p, e, f, h) {
        JsPrefix(t, n, a, p, e, f, h);
      }
    case Include =>
      forall a ensures IncludeShape(t, a, h) <==> IncludeShape(u, a, h) {
        IncludePrefix(t, n, a, h);
      }
  }

  /** What a successful match guarantees about `s`. */
  lemma MatchFacts(syn: Syntax, s: string)
    requires Match(syn, s).Some?
    ensures var h := Match(syn, s).value;
      && 1 <= h.start < h.end - 1 < |s| && h.group == s[h.start..h.end - 1]
      && TokenShape(syn, h.group)
      && (syn == Using || syn == Import ==> s[h.end - 1] == ';')
      && (syn == Include ==> IsIncludeOpen(s[h.start - 1]) && IsIncludeClose(s[h.end - 1]))
      && (syn == JsImport ==> IsQuote(s[h.start - 1]) && IsQuote(s[h.end - 1]))
  {
    MatchSound(syn, s);
    ParseFacts(syn, s, Match(syn, s).value);
  }

  /** `re.match` on a prefix: if the prefix matches, so does the whole string. */
  lemma MatchPrefixGrows(syn: Syntax, t: string, n: nat)
    requires n <= |t| && Match(syn, t[..n]).Some?
    ensures Match(syn, t).Some?
  {
    var u := t[..n];
    var hu := Match(syn, u).value;
    MatchSound(syn, u);
    ParseFacts(syn, u, hu);
    ParsePrefix(syn, t, n, hu);
    MatchComplete(syn, t, hu);
  }

  /** Outside the JavaScript pattern, whose `\s+` may run on past a line that matches, a
      match of a prefix is the match of the whole text. */
  lemma MatchExtend(syn: Syntax, t: string, n: nat)
    requires syn != JsImport && n <= |t| && Match(syn, t[..n]).Some?
    ensures Match(syn, t) == Match(syn, t[..n])
  {
    var u := t[..n];
    var h := Match(syn, u).value;
    MatchSound(syn, u);
    ParseFacts(syn, u, h);
    ParsePrefix(syn, t, n, h);
    MatchComplete(syn, t, h);
  }

  /** A match of the whole string that ends inside a prefix is that prefix's match. */
  lemma MatchPrefixSame(syn: Syntax, t: string, n: nat)
    requires n <= |t| && Match(syn, t).Some? && Match(syn, t).value.end <= n
    ensures Match(syn, t[..n]) == Match(syn, t)
  {
    var u := t[..n];
    var ht := Match(syn, t).value;
    MatchSound(syn, t);
    ParsePrefix(syn, t, n, ht);
    MatchComplete(syn, u, ht);
    var hu := Match(syn, u).value;
    MatchSound(syn, u);
    ParseFacts(syn, u, hu);
    ParsePrefix(syn, t, n, hu);
    MatchComplete(syn, t, hu);
    SameHit(syn, t, n, ht, hu);
  }

  /** Two admitted matches, each preferred to the other, are the same match. */
  lemma SameHit(syn: Syntax, t: string, n: nat, ht: Hit, hu: Hit)
    requires ht.end <= n <= |t| && Parse(syn, t, ht) && Parse(syn, t[..n], hu)
    requires Prefers(ht, hu) && Prefers(hu, ht)
    ensures ht == hu
  {
    ParseFacts(syn, t, ht);
    ParseFacts(syn, t[..n], hu);
    assert t[..n][hu.start..hu.end - 1] == t[ht.start..ht.end - 1];
  }

  // ---------------------------------------------------------------------------
  // Leading whitespace: `^\s*` absorbs it, so the match only moves
  // ---------------------------------------------------------------------------

  /** `h` moved `d` positions later. */
  function Later(h: Hit, d: nat): (r: Hit)
    ensures r.group == h.group && r.start == h.start + d && r.end == h.end + d
  {
    Hit(h.group, h.start + d, h.end + d)
  }

  /** The match of `s` with one whitespace character put in front. */
  function LaterOpt(m: Option<Hit>, d: nat): (r: Option<Hit>)
    ensures r.Some? <==> m.Some?
    ensures r.Some? ==> r.value == Later(m.value, d)
  {
    match m
    case None => None
    case Some(h) => Some(Later(h, d))
  }

  lemma SliceShift(c: char, t: string, i: nat, j: nat)
    requires i <= j <= |t|
    ensures ([c] + t)[i + 1..j + 1] == t[i..j]
  {
    assert forall k :: 0 <= k < j - i ==> ([c] + t)[i + 1..j + 1][k] == t[i..j][k];
  }

  /** A first character satisfying `p` does not change whether a run from the start holds. */
  lemma AllFirst(c: char, t: string, j: nat, p: char -> bool)
    requires p(c)
    ensures All([c] + t, 0, j, p) <==> All([c] + t, 1, j, p)
  {
    assert ([c] + t)[0] == c;
  }

  lemma AllShift(c: char, t: string, i: nat, j: nat, p: char -> bool)
    ensures All([c] + t, i + 1, j + 1, p) <==> All(t, i, j, p)
  {
    var s := [c] + t;
    assert forall k :: 0 <= k < |t| ==> s[k + 1] == t[k];
    if All(s, i + 1, j + 1, p) {
      forall k | i <= k < j && k < |t| ensures p(t[k]) {
        assert s[k + 1] == t[k];
      }
    }
  }

  lemma QualifiedShift(kw: string, c: char, t: string, a: nat, h: Hit)
    requires IsSpace(c) && h.start >= 1 && h.end >= 1
    ensures QualifiedShape(kw, [c] + t, a + 1, h)
        <==> QualifiedShape(kw, t, a, Hit(h.group, h.start - 1, h.end - 1))
  {
    var s := [c] + t;
    if a + |kw| < h.start - 1 && h.start < h.end - 1 <= |t| {
      assert All(s, 0, a + 1, IsSpace) <==> All(t, 0, a, IsSpace) by {
        AllShift(c, t, 0, a, IsSpace);
        AllFirst(c, t, a + 1, IsSpace);
      }
      assert All(s, a + |kw| + 1, h.start, IsSpace) <==> All(t, a + |kw|, h.start - 1, IsSpace) by {
        AllShift(c, t, a + |kw|, h.start - 1, IsSpace);
      }
      assert All(s, h.start, h.end - 1, IsQualifiedChar) <==> All(t, h.start - 1, h.end - 2, IsQualifiedChar) by {
        AllShift(c, t, h.start - 1, h.end - 2, IsQualifiedChar);
      }
      SliceShift(c, t, a, a + |kw|);
      SliceShift(c, t, h.start - 1, h.end - 2);
      assert s[h.end - 1] == t[h.end - 2];
    }
  }

  lemma IncludeShift(c: char, t: string, a: nat, h: Hit)
    requires IsSpace(c) && h.start >= 1 && h.end >= 1
    ensures IncludeShape([c] + t, a + 1, h)
        <==> IncludeShape(t, a, Hit(h.group, h.start - 1, h.end - 1))
  {
    var s := [c] + t;
    if a + 8 < h.start - 2 && h.start < h.end - 1 <= |t| {
      assert All(s, 0, a + 1, IsSpace) <==> All(t, 0, a, IsSpace) by {
        AllShift(c, t, 0, a, IsSpace);
        AllFirst(c, t, a + 1, IsSpace);
      }
      assert All(s, a + 9, h.start - 1, IsSpace) <==> All(t, a + 8, h.start - 2, IsSpace) by {
        AllShift(c, t, a + 8, h.start - 2, IsSpace);
      }
      assert All(s, h.start, h.end - 1, IsIncludeChar) <==> All(t, h.start - 1, h.end - 2, IsIncludeChar) by {
        AllShift(c, t, h.start - 1, h.end - 2, IsIncludeChar);
      }
      SliceShift(c, t, a, a + 8);
      SliceShift(c, t, h.start - 1, h.end - 2);
      assert s[h.start - 1] == t[h.start - 2] && s[h.end - 1] == t[h.end - 2];
    }
  }

  lemma RestShift(c: char, t: string, e: nat, f: nat, h: Hit)
    requires h.start >= 1 && h.end >= 1
    ensures RestShape([c] + t, e + 1, f + 1, h)
        <==> RestShape(t, e, f, Hit(h.group, h.start - 1, h.end - 1))
  {
    var s := [c] + t;
    if e < f && f + 4 < h.start - 2 && h.start < h.end - 1 <= |t| {
      AllShift(c, t, e, f, IsSpace);
      AllShift(c, t, f + 4, h.start - 2, IsSpace);
      AllShift(c, t, h.start - 1, h.end - 2, NotNewline);
      SliceShift(c, t, f, f + 4);
      SliceShift(c, t, h.start - 1, h.end - 2);
      assert s[h.start - 1] == t[h.start - 2] && s[h.end - 1] == t[h.end - 2];
    }
  }

  lemma JsShift(c: char, t: string, a: nat, p: nat, e: nat, f: nat, h: Hit)
    requires IsSpace(c) && h.start >= 1 && h.end >= 1
    ensures JsShape([c] + t, a + 1, p + 1, e + 1, f + 1, h)
        <==> JsShape(t, a, p, e, f, Hit(h.group, h.start - 1, h.end - 1))
  {
    var s := [c] + t;
    RestShift(c, t, e, f, h);
    if a + 6 < p <= e <= |t| {
      AllShift(c, t, 0, a, IsSpace);
      AllFirst(c, t, a + 1, IsSpace);
      AllShift(c, t, a + 6, p, IsSpace);
      AllShift(c, t, p, e, NotNewline);
      SliceShift(c, t, a, a + 6);
    }
  }

  /** With a whitespace character in front, the pattern admits the same matches, one
      position later. */
  lemma ParseShift(syn: Syntax, c: char, t: string, h: Hit)
    requires IsSpace(c) && h.start >= 1 && h.end >= 1
    ensures Parse(syn, [c] + t, h) <==> Parse(syn, t, Hit(h.group, h.start - 1, h.end - 1))
  {
    match syn
    case Using => QualifiedParseShift("using", c, t, h, Hit(h.group, h.start - 1, h.end - 1));
    case Import => QualifiedParseShift("import", c, t, h, Hit(h.group, h.start - 1, h.end - 1));
    case JsImport => JsParseShift(c, t, h, Hit(h.group, h.start - 1, h.end - 1));
    case Include => IncludeParseShift(c, t, h, Hit(h.group, h.start - 1, h.end - 1));
  }

  lemma QualifiedParseShift(kw: string, c: char, t: string, h: Hit, d: Hit)
    requires IsSpace(c) && h.start >= 1 && h.end >= 1 && |kw| > 0 && !IsSpace(kw[0])
    requires d == Hit(h.group, h.start - 1, h.end - 1)
    ensures (exists a :: QualifiedShape(kw, [c] + t, a, h)) <==> (exists a :: QualifiedShape(kw, t, a, d))
  {
    var s := [c] + t;
    if exists a :: QualifiedShape(kw, s, a, h) {
      var a: nat :| QualifiedShape(kw, s, a, h);
      assert s[a..a + |kw|][0] == s[a];
      QualifiedShift(kw, c, t, a - 1, h);
    }
    if exists a :: QualifiedShape(kw, t, a, d) {
      var a: nat :| QualifiedShape(kw, t, a, d);
      QualifiedShift(kw, c, t, a, h);
    }
  }

  lemma JsParseShift(c: char, t: string, h: Hit, d: Hit)
    requires IsSpace(c) && h.start >= 1 && h.end >= 1
    requires d == Hit(h.group, h.start - 1, h.end - 1)
    ensures Parse(JsImport, [c] + t, h) <==> Parse(JsImport, t, d)
  {
    var s := [c] + t;
    if Parse(JsImport, s, h) {
      var a: nat, p: nat, e: nat, f: nat :| JsShape(s, a, p, e, f, h);
      assert s[a..a + 6][0] == s[a];
      JsShift(c, t, a - 1, p - 1, e - 1, f - 1, h);
    }
    if Parse(JsImport, t, d) {
      var a: nat, p: nat, e: nat, f: nat :| JsShape(t, a, p, e, f, d);
      JsShift(c, t, a, p, e, f, h);
    }
  }

  lemma IncludeParseShift(c: char, t: string, h: Hit, d: Hit)
    requires IsSpace(c) && h.start >= 1 && h.end >= 1
    requires d == Hit(h.group, h.start - 1, h.end - 1)
    ensures (exists a :: IncludeShape([c] + t, a, h)) <==> (exists a :: IncludeShape(t, a, d))
  {
    var s := [c] + t;
    if exists a :: IncludeShape(s, a, h) {
      var a: nat :| IncludeShape(s, a, h);
      assert s[a..a + 8][0] == s[a];
      IncludeShift(c, t, a - 1, h);
    }
    if exists a :: IncludeShape(t, a, d) {
      var a: nat :| IncludeShape(t, a, d);
      IncludeShift(c, t, a, h);
    }
  }

  lemma SameHitShifted(syn: Syntax, c: char, t: string, h: Hit, h2: Hit)
    requires Parse(syn, t, h) && Parse(syn, [c] + t, h2)
    requires Prefers(h2, Later(h, 1)) && Prefers(Later(h, 1), h2)
    ensures h2 == Later(h, 1)
  {
    ParseBounds(syn, t, h);
    ParseBounds(syn, [c] + t, h2);
    SliceShift(c, t, h.start, h.end - 1);
  }

  lemma MatchShiftSome(syn: Syntax, c: char, t: string)
    requires IsSpace(c) && Match(syn, t).Some?
    ensures Match(syn, [c] + t) == Some(Later(Match(syn, t).value, 1))
  {
    var s := [c] + t;
    var h := Match(syn, t).value;
    MatchSound(syn, t);
    ParseShift(syn, c, t, Later(h, 1));
    MatchComplete(syn, s, Later(h, 1));
    var h2 := Match(syn, s).value;
    MatchSound(syn, s);
    ParseBounds(syn, s, h2);
    ParseShift(syn, c, t, h2);
    MatchComplete(syn, t, Hit(h2.group, h2.start - 1, h2.end - 1));
    SameHitShifted(syn, c, t, h, h2);
  }

  lemma MatchShiftBack(syn: Syntax, c: char, t: string)
    requires IsSpace(c) && Match(syn, [c] + t).Some?
    ensures Match(syn, t).Some?
  {
    var s := [c] + t;
    var h2 := Match(syn, s).value;
    MatchSound(syn, s);
    ParseBounds(syn, s, h2);
    ParseShift(syn, c, t, h2);
    MatchComplete(syn, t, Hit(h2.group, h2.start - 1, h2.end - 1));
  }

  /** A whitespace character in front of the text moves the match one position later and
      leaves its group unchanged; `^\s*` absorbs it. */
  lemma MatchShift(syn: Syntax, c: char, t: string)
    requires IsSpace(c)
    ensures Match(syn, [c] + t) == LaterOpt(Match(syn, t), 1)
  {
    if Match(syn, t).Some? {
      MatchShiftSome(syn, c, t);
    } else if Match(syn, [c] + t).Some? {
      MatchShiftBack(syn, c, t);
      assert false;
    }
  }

  /** The same for any run of whitespace in front. */
  lemma {:induction false} MatchAfterSpaces(syn: Syntax, w: string, t: string)
    requires forall k :: 0 <= k < |w| ==> IsSpace(w[k])
    ensures Match(syn, w + t) == LaterOpt(Match(syn, t), |w|)
    decreases |w|
  {
    if |w| > 0 {
      var u := w[1..] + t;
      assert w + t == [w[0]] + u;
      MatchAfterSpaces(syn, w[1..], t);
      MatchShift(syn, w[0], u);
      LaterLater(Match(syn, t), |w| - 1);
    } else {
      assert w + t == t;
    }
  }

  lemma LaterLater(m: Option<Hit>, d: nat)
    ensures LaterOpt(LaterOpt(m, d), 1) == LaterOpt(m, d + 1)
  {
  }

  /** A text made only of whitespace never matches. */
  lemma BlankNoMatch(syn: Syntax, w: string)
    requires forall k :: 0 <= k < |w| ==> IsSpace(w[k])
    ensures Match(syn, w).None?
  {
    MatchAfterSpaces(syn, w, "");
    assert w + "" == w;
  }

  // ---------------------------------------------------------------------------
  // Lines of a given form (leading whitespace is covered by MatchAfterSpaces)
  // ---------------------------------------------------------------------------

  /** The keyword each pattern looks for after its leading whitespace. */
  function Keyword(syn: Syntax): (kw: string)
    ensures |kw| > 0 && !IsSpace(kw[0])
  {
    match syn
    case Using => "using"
    case Import => "import"
    case JsImport => "import"
    case Include => "#include"
  }

  predicate AllSpace(w: string) {
    forall k :: 0 <= k < |w| ==> IsSpace(w[k])
  }

  lemma QualifiedNotSpace(c: char)
    requires IsQualifiedChar(c)
    ensures !IsSpace(c)
  {
  }

  /** `KW tok;` with whitespace between yields `tok`, whatever follows. */
  lemma QualifiedLine(kw: string, sp: string, tok: string, rest: string)
    requires |kw| > 0 && !IsSpace(kw[0])
    requires |sp| > 0 && AllSpace(sp)
    requires |tok| > 0 && forall k :: 0 <= k < |tok| ==> IsQualifiedChar(tok[k])
    ensures var b := |kw| + |sp|;
      MatchQualified(kw, kw + sp + tok + ";" + rest) == Some(Hit(tok, b, b + |tok| + 1))
  {
    QualifiedLineShape(kw, sp, tok, rest);
    QualifiedComplete(kw, kw + sp + tok + ";" + rest, 0, Hit(tok, |kw| + |sp|, |kw| + |sp| + |tok| + 1));
  }

  lemma QualifiedLineShape(kw: string, sp: string, tok: string, rest: string)
    requires AllSpace(sp) && |sp| > 0 && |tok| > 0
    requires forall k :: 0 <= k < |tok| ==> IsQualifiedChar(tok[k])
    ensures var b := |kw| + |sp|;
      QualifiedShape(kw, kw + sp + tok + ";" + rest, 0, Hit(tok, b, b + |tok| + 1))
  {
    var s := kw + sp + tok + ";" + rest;
    var b := |kw| + |sp|;
    var m := b + |tok|;
    assert forall k :: |kw| <= k < b ==> s[k] == sp[k - |kw|];
    assert forall k :: b <= k < m ==> s[k] == tok[k - b];
    assert s[0..|kw|] == kw;
    assert s[b..m] == tok;
    assert s[m] == ';';
  }

  /** A `[\w.]` run that stops at anything but `;` yields nothing. */
  lemma QualifiedRejected(syn: Syntax, sp: string, tok: string, c: char, rest: string)
    requires syn == Using || syn == Import
    requires |sp| > 0 && AllSpace(sp)
    requires |tok| > 0 && forall k :: 0 <= k < |tok| ==> IsQualifiedChar(tok[k])
    requires !IsQualifiedChar(c) && c != ';'
    ensures Match(syn, Keyword(syn) + sp + tok + [c] + rest).None?
  {
    var kw := Keyword(syn);
    var s := kw + sp + tok + [c] + rest;
    QualifiedRejectedSpans(kw, sp, tok, c, rest);
    assert Match(syn, s) == MatchQualified(kw, s);
  }

  lemma QualifiedRejectedSpans(kw: string, sp: string, tok: string, c: char, rest: string)
    requires |kw| > 0 && !IsSpace(kw[0])
    requires |sp| > 0 && AllSpace(sp)
    requires |tok| > 0 && forall k :: 0 <= k < |tok| ==> IsQualifiedChar(tok[k])
    requires !IsQualifiedChar(c)
    ensures var s := kw + sp + tok + [c] + rest;
      var b := |kw| + |sp|;
      && Span(s, 0, IsSpace) == 0 && StartsWith(s, kw)
      && Span(s, |kw|, IsSpace) == b && Span(s, b, IsQualifiedChar) == b + |tok|
      && s[b + |tok|] == c
  {
    var s := kw + sp + tok + [c] + rest;
    var b := |kw| + |sp|;
    Assoc(kw + sp + tok, [c], rest);
    Assoc(kw + sp, tok, [c] + rest);
    Assoc(tok, [c], rest);
    assert s[..|kw|] == kw;
    assert s[0] == kw[0] && s[b + |tok|] == c;
    SpanAt(s, 0, 0, IsSpace);
    QualifiedNotSpace(tok[0]);
    SpanOver(kw, sp, tok + [c] + rest, IsSpace);
    SpanOver(kw + sp, tok, [c] + rest, IsQualifiedChar);
  }

  lemma Assoc(a: string, b: string, c: string)
    ensures a + b + c == a + (b + c)
  {
  }

  /** A run over the middle part of `u + w + v` that `v` stops. */
  lemma SpanOver(u: string, w: string, v: string, p: char -> bool)
    requires forall k :: 0 <= k < |w| ==> p(w[k])
    requires v == [] || !p(v[0])
    ensures Span(u + w + v, |u|, p) == |u| + |w|
  {
    var s := u + w + v;
    forall k | |u| <= k < |u| + |w| ensures p(s[k]) {
      assert s[k] == w[k - |u|];
    }
    if v != [] {
      assert s[|u| + |w|] == v[0];
    }
    SpanAt(s, |u|, |u| + |w|, p);
  }

  /** `#include` with whitespace, an opening delimiter, a group and a closing delimiter
      yields the group. */
  lemma IncludeLine(sp: string, o: char, tok: string, c: char, rest: string)
    requires |sp| > 0 && AllSpace(sp) && IsIncludeOpen(o) && IsIncludeClose(c)
    requires |tok| > 0 && forall k :: 0 <= k < |tok| ==> IsIncludeChar(tok[k])
    ensures var b := 8 + |sp| + 1;
      MatchInclude("#include" + sp + [o] + tok + [c] + rest) == Some(Hit(tok, b, b + |tok| + 1))
  {
    IncludeLineShape(sp, o, tok, c, rest);
    IncludeComplete("#include" + sp + [o] + tok + [c] + rest, 0, Hit(tok, 8 + |sp| + 1, 8 + |sp| + |tok| + 2));
  }

  lemma IncludeLineShape(sp: string, o: char, tok: string, c: char, rest: string)
    requires |sp| > 0 && AllSpace(sp) && IsIncludeOpen(o) && IsIncludeClose(c)
    requires |tok| > 0 && forall k :: 0 <= k < |tok| ==> IsIncludeChar(tok[k])
    ensures var b := 8 + |sp| + 1;
      IncludeShape("#include" + sp + [o] + tok + [c] + rest, 0, Hit(tok, b, b + |tok| + 1))
  {
    var s := "#include" + sp + [o] + tok + [c] + rest;
    var b := 8 + |sp| + 1;
    var m := b + |tok|;
    assert forall k :: 8 <= k < b - 1 ==> s[k] == sp[k - 8];
    assert forall k :: b <= k < m ==> s[k] == tok[k - b];
    assert s[0..8] == "#include";
    assert s[b..m] == tok;
    assert s[b - 1] == o && s[m] == c;
  }

  /** A line whose first character is neither whitespace nor the keyword's first character
      yields nothing. */
  lemma KeywordMissing(syn: Syntax, c: char, rest: string)
    requires !IsSpace(c) && c != Keyword(syn)[0]
    ensures Match(syn, [c] + rest).None?
  {
    var s := [c] + rest;
    SpanAt(s, 0, 0, IsSpace);
  }

  /** The keyword must be followed by whitespace. */
  lemma KeywordAlone(syn: Syntax, rest: string)
    requires rest == [] || !IsSpace(rest[0])
    ensures Match(syn, Keyword(syn) + rest).None?
  {
    var kw := Keyword(syn);
    var s := kw + rest;
    assert s[0] == kw[0];
    SpanAt(s, 0, 0, IsSpace);
    assert s[..|kw|] == kw;
    SpanAt(s, |kw|, |kw|, IsSpace);
  }
}
