/** The line-based import extractors of `src/analyzers/parsers/language_parsers.py`: each
    splits the file into lines with `str.splitlines` and keeps group 1 of every line on
    which its pattern matches with `re.match`. */
module LanguageParsers {
  import opened Strings
  import opened Wrappers
  import opened Patterns
  import opened PatternExamples

  /** The parser classes. `PythonParser` walks a Python syntax tree and is not modelled
      here; the dependency analyzers take it as a parameter. */
  datatype Parser = PythonParser | DotNetParser | JavaScriptParser | JavaParser | CppParser

  /** The pattern a line-based parser applies to each line. */
  function PatternOf(p: Parser): (r: Option<Syntax>)
    ensures r.None? <==> p == PythonParser
  {
    match p
    case PythonParser => None
    case DotNetParser => Some(Using)
    case JavaScriptParser => Some(JsImport)
    case JavaParser => Some(Import)
    case CppParser => Some(Include)
  }

  /** What one line contributes: group 1 of the match, if the line matches. */
  function LineTokens(syn: Syntax, line: string): (r: seq<string>)
    ensures |r| <= 1
    ensures r != [] <==> Match(syn, line).Some?
    ensures r != [] ==> TokenShape(syn, r[0]) && Contains(line, r[0])
  {
    match Match(syn, line)
    case None => []
    case Some(h) =>
      MatchFacts(syn, line);
      assert line[h.start..][..|h.group|] == h.group;
      ContainsAt(line, h.group, h.start);
      [h.group]
  }

  /** The tokens of a sequence of lines, line by line. */
  function PerLine(syn: Syntax, lines: seq<string>): (r: seq<string>)
    ensures |r| <= |lines|
    ensures forall k :: 0 <= k < |r| ==> TokenShape(syn, r[k])
    decreases |lines|
  {
    if |lines| == 0 then [] else LineTokens(syn, lines[0]) + PerLine(syn, lines[1..])
  }

  /** The tokens of two blocks of lines are those of the first block, then those of the
      second: tokens come in line order. */
  lemma {:induction false} PerLineAppend(syn: Syntax, a: seq<string>, b: seq<string>)
    ensures PerLine(syn, a + b) == PerLine(syn, a) + PerLine(syn, b)
    decreases |a|
  {
    if |a| > 0 {
      assert (a + b)[1..] == a[1..] + b;
      PerLineAppend(syn, a[1..], b);
    } else {
      assert a + b == b;
    }
  }

  /** One more line adds its own token, if any, at the end. */
  lemma PerLineStep(syn: Syntax, lines: seq<string>, i: nat)
    requires i < |lines|
    ensures PerLine(syn, lines[..i + 1]) == PerLine(syn, lines[..i]) + LineTokens(syn, lines[i])
  {
    assert lines[..i + 1] == lines[..i] + [lines[i]];
    PerLineAppend(syn, lines[..i], [lines[i]]);
    assert PerLine(syn, [lines[i]]) == LineTokens(syn, lines[i]) + PerLine(syn, []);
  }

  /** What the line-based parser with pattern `syn` returns for `content`. */
  function Tokens(syn: Syntax, content: string): (r: seq<string>)
    ensures |r| <= |SplitLines(content)|
    ensures forall k :: 0 <= k < |r| ==> TokenShape(syn, r[k])
    ensures content == "" ==> r == []
  {
    PerLine(syn, SplitLines(content))
  }

  /** The body shared by `DotNetParser.parse`, `JavaScriptParser.parse`, `JavaParser.parse`
      and `CppParser.parse`; they differ only in their pattern. */
  method ParseLines(syn: Syntax, fileContent: string) returns (dependencies: seq<string>)
    ensures dependencies == Tokens(syn, fileContent)
  {
    dependencies := [];
    var lines := SplitLines(fileContent);
    for i := 0 to |lines|
      invariant dependencies == PerLine(syn, lines[..i])
    {
      PerLineStep(syn, lines, i);
      var m := Match(syn, lines[i]);
      if m.Some? {
        dependencies := dependencies + [m.value.group];
      }
    }
    assert lines[..|lines|] == lines;
  }

  /** `parse` of a parser class: `None` for `PythonParser`, whose extraction is not
      modelled here. */
  method Parse(p: Parser, fileContent: string) returns (dependencies: Option<seq<string>>)
    ensures dependencies.None? <==> p == PythonParser
    ensures p != PythonParser ==> dependencies == Some(Tokens(PatternOf(p).value, fileContent))
  {
    match PatternOf(p)
    case None => dependencies := None;
    case Some(syn) =>
      var d := ParseLines(syn, fileContent);
      dependencies := Some(d);
  }

  // ---------------------------------------------------------------------------
  // Line structure
  // ---------------------------------------------------------------------------

  predicate NoBoundary(line: string) {
    forall k :: 0 <= k < |line| ==> !IsLineBoundary(line[k])
  }

  /** A file whose first line is `line` yields that line's token, then the rest's. */
  lemma TokensCons(syn: Syntax, line: string, rest: string)
    requires NoBoundary(line)
    ensures Tokens(syn, line + "\n" + rest) == LineTokens(syn, line) + Tokens(syn, rest)
  {
    SplitLinesCons(line, rest);
    assert ([line] + SplitLines(rest))[1..] == SplitLines(rest);
  }

  /** Each token drawn from a block of lines occurs in any text that holds every line. */
  lemma {:induction false} PerLineContained(syn: Syntax, lines: seq<string>, content: string)
    requires forall k :: 0 <= k < |lines| ==> Contains(content, lines[k])
    ensures forall k :: 0 <= k < |PerLine(syn, lines)| ==> Contains(content, PerLine(syn, lines)[k])
    decreases |lines|
  {
    if |lines| > 0 {
      var head := LineTokens(syn, lines[0]);
      PerLineContained(syn, lines[1..], content);
      if head != [] {
        ContainsTrans(content, lines[0], head[0]);
      }
    }
  }

  /** Every dependency a line-based parser reports is text that occurs in the file. */
  lemma TokensContain(syn: Syntax, content: string)
    ensures forall k :: 0 <= k < |Tokens(syn, content)| ==> Contains(content, Tokens(syn, content)[k])
  {
    SplitLinesContained(content);
    PerLineContained(syn, SplitLines(content), content);
  }

  /** A file of one line yields at most that line's token. */
  lemma TokensSingle(syn: Syntax, line: string)
    requires NoBoundary(line)
    ensures Tokens(syn, line) == LineTokens(syn, line)
  {
    SplitLinesSingle(line);
    if line != "" {
      assert PerLine(syn, [line]) == LineTokens(syn, line) + PerLine(syn, []);
    }
  }

  // ---------------------------------------------------------------------------
  // What the patterns accept, on example lines
  // ---------------------------------------------------------------------------

  lemma DotNetExample()
    ensures Tokens(Using, "using System;" + "\n" + "using System.Collections.Generic;")
         == ["System", "System.Collections.Generic"]
  {
    var l1, l2 := "using System;", "using System.Collections.Generic;";
    DotNetLines();
    DotNetPlain();
    TokensCons(Using, l1, l2);
    TokensSingle(Using, l2);
  }

  lemma DotNetPlain()
    ensures NoBoundary("using System;")
    ensures NoBoundary("using System.Collections.Generic;")
  {
  }

  lemma DotNetLines()
    ensures LineTokens(Using, "using System;") == ["System"]
    ensures LineTokens(Using, "using System.Collections.Generic;") == ["System.Collections.Generic"]
  {
    UsingSystem();
    UsingGeneric();
  }

  lemma JavaExample()
    ensures Tokens(Import, "import java.util.List;" + "\n" + "import java.io.File;")
         == ["java.util.List", "java.io.File"]
  {
    var l1, l2 := "import java.util.List;", "import java.io.File;";
    JavaLines();
    JavaPlain();
    TokensCons(Import, l1, l2);
    TokensSingle(Import, l2);
  }

  lemma JavaPlain()
    ensures NoBoundary("import java.util.List;")
    ensures NoBoundary("import java.io.File;")
  {
  }

  lemma JavaLines()
    ensures LineTokens(Import, "import java.util.List;") == ["java.util.List"]
    ensures LineTokens(Import, "import java.io.File;") == ["java.io.File"]
  {
    ImportList();
    ImportFile();
  }

  lemma CppExample()
    ensures Tokens(Include, "#include <iostream>" + "\n" + "#include \"custom.h\"") == ["iostream", "custom.h"]
  {
    var l1, l2 := "#include <iostream>", "#include \"custom.h\"";
    CppLines();
    CppPlain();
    TokensCons(Include, l1, l2);
    TokensSingle(Include, l2);
  }

  lemma CppPlain()
    ensures NoBoundary("#include <iostream>")
    ensures NoBoundary("#include \"custom.h\"")
  {
  }

  lemma CppLines()
    ensures LineTokens(Include, "#include <iostream>") == ["iostream"]
    ensures LineTokens(Include, "#include \"custom.h\"") == ["custom.h"]
  {
    IncludeAngle();
    IncludeQuoted();
  }

  /** The group is the module specifier, not the imported name. */
  lemma JavaScriptExample()
    ensures Tokens(JsImport, "import React from 'react';") == ["react"]
  {
    TokensSingle(JsImport, "import React from 'react';");
    ImportReact();
  }

  /** Greedy `(.+)` runs to the last quote of the line. */
  lemma JavaScriptLastQuote()
    ensures Tokens(JsImport, "import a from 'x'; // 'y'") == ["x'; // 'y"]
  {
    TokensSingle(JsImport, "import a from 'x'; // 'y'");
    ImportTrailingQuote();
  }

  /** The side-effect form has no `from` and yields nothing. */
  lemma JavaScriptSideEffect()
    ensures Tokens(JsImport, "import './App.css';") == []
  {
    TokensSingle(JsImport, "import './App.css';");
    ImportSideEffect();
  }

  /** `using static` is not a namespace import. */
  lemma DotNetStatic()
    ensures Tokens(Using, "using static X;") == []
  {
    TokensSingle(Using, "using static X;");
    UsingStatic();
  }

  /** An alias directive is not matched: the group must run straight into `;`. */
  lemma DotNetAlias()
    ensures Tokens(Using, "using A = B;") == []
  {
    TokensSingle(Using, "using A = B;");
    UsingAlias();
  }

  /** A wildcard import is not matched: `*` is not in `[\w.]`. */
  lemma JavaWildcard()
    ensures Tokens(Import, "import java.util.*;") == []
  {
    TokensSingle(Import, "import java.util.*;");
    ImportWildcard();
  }

  /** `import static` is not matched. */
  lemma JavaStatic()
    ensures Tokens(Import, "import static a.B;") == []
  {
    TokensSingle(Import, "import static a.B;");
    ImportStatic();
  }

  /** Leading whitespace is allowed before the keyword. */
  lemma DotNetIndented()
    ensures Tokens(Using, "  using X;") == ["X"]
  {
    TokensSingle(Using, "  using X;");
    UsingIndented();
  }

  /** The keyword must be the first non-whitespace text of its line. */
  lemma DotNetCommented()
    ensures Tokens(Using, "// using X;") == []
  {
    TokensSingle(Using, "// using X;");
    UsingCommented();
  }

  /** The opening and closing delimiters are checked independently. */
  lemma CppMismatched()
    ensures Tokens(Include, "#include <x\"") == ["x"]
  {
    TokensSingle(Include, "#include <x\"");
    IncludeMismatched();
  }
}
