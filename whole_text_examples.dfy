/** The whole-text extractors on example contents: where they agree with the line-based
    ones, and contents on which the two styles part ways. */
module WholeTextExamples {
  import opened Strings
  import opened Wrappers
  import opened Patterns
  import opened PatternExamples
  import opened LanguageParsers
  import opened WholeTextParsers

  lemma {:induction false} LineEndIs(s: string, i: nat, j: nat)
    requires i <= j <= |s| && (forall k :: i <= k < j ==> s[k] != '\n') && (j < |s| ==> s[j] == '\n')
    ensures LineEnd(s, i) == j
    decreases j - i
  {
    if i < j {
      LineEndIs(s, i + 1, j);
    }
  }

  /** At the end of the text the scan finds nothing more. */
  lemma ScanAtEnd(m: Matcher, s: string)
    requires Anchored(m)
    ensures ScanFrom(m, s, |s|) == []
  {
    assert s[|s|..] == "";
    assert m(s[|s|..]).None?;
  }

  /** The last line of a text never lets a match run on into a next line. */
  lemma LastLineSafe(m: Matcher, s: string, i: nat)
    requires Anchored(m) && i <= |s| && LineEnd(s, i) == |s|
    ensures LineSafe(m, s, i)
  {
    if m(s[i..]).Some? {
      assert HitIn(s[i..], m(s[i..]).value);
    }
  }

  /** A first line that matches on its own keeps its match within itself, for the
      DotNet, Java and C++ patterns. */
  lemma FirstLineSafe(syn: Syntax, l1: string, rest: string)
    requires syn != JsImport && NoBoundary(l1) && Match(syn, l1).Some?
    ensures LineSafe(MatcherOf(syn), l1 + "\n" + rest, 0)
  {
    var s := l1 + "\n" + rest;
    forall k | 0 <= k < |l1| ensures s[k] != '\n' {
      assert s[k] == l1[k];
    }
    LineEndIs(s, 0, |l1|);
    assert s[0..] == s;
    assert s[..|l1|] == l1;
    MatchExtend(syn, s, |l1|);
    MatchFacts(syn, l1);
  }

  lemma TwoLinesShape(l1: string, l2: string)
    requires NoBoundary(l1) && NoBoundary(l2)
    ensures NewlinesOnly(l1 + "\n" + l2)
    ensures forall i :: 0 < i < |l1 + "\n" + l2| && LineStart(l1 + "\n" + l2, i) ==> i == |l1| + 1
    ensures |l1| + 1 <= |l1 + "\n" + l2| && LineEnd(l1 + "\n" + l2, |l1| + 1) == |l1 + "\n" + l2|
  {
    var s := l1 + "\n" + l2;
    forall k | 0 <= k < |s| && k != |l1| ensures !IsLineBoundary(s[k]) {
      if k < |l1| {
        assert s[k] == l1[k];
      } else {
        assert s[k] == l2[k - |l1| - 1];
      }
    }
    LineEndIs(s, |l1| + 1, |s|);
  }

  /** Two lines whose first one matches a DotNet, Java or C++ pattern: both styles agree. */
  lemma TwoLines(syn: Syntax, l1: string, l2: string)
    requires syn != JsImport && NoBoundary(l1) && NoBoundary(l2) && Match(syn, l1).Some?
    ensures FindAll(syn, l1 + "\n" + l2) == Tokens(syn, l1 + "\n" + l2)
  {
    var s := l1 + "\n" + l2;
    var m := MatcherOf(syn);
    MatcherAnchored(syn);
    TwoLinesShape(l1, l2);
    forall i | 0 <= i < |s| && LineStart(s, i) ensures LineSafe(m, s, i) {
      if i == 0 {
        FirstLineSafe(syn, l1, l2);
      } else {
        LastLineSafe(m, s, i);
      }
    }
    FindAllAgrees(syn, s);
  }

  lemma DotNetWhole()
    ensures FindAll(Using, "using System;" + "\n" + "using System.Collections.Generic;")
         == ["System", "System.Collections.Generic"]
  {
    DotNetLines();
    DotNetPlain();
    TwoLines(Using, "using System;", "using System.Collections.Generic;");
    DotNetExample();
  }

  lemma JavaWhole()
    ensures FindAll(Import, "import java.util.List;" + "\n" + "import java.io.File;")
         == ["java.util.List", "java.io.File"]
  {
    JavaLines();
    JavaPlain();
    TwoLines(Import, "import java.util.List;", "import java.io.File;");
    JavaExample();
  }

  lemma CppWhole()
    ensures FindAll(Include, "#include <iostream>" + "\n" + "#include \"custom.h\"") == ["iostream", "custom.h"]
  {
    CppLines();
    CppPlain();
    TwoLines(Include, "#include <iostream>", "#include \"custom.h\"");
    CppExample();
  }

  lemma JsPlain()
    ensures NoBoundary("import React from 'react';")
  {
  }

  lemma JavaScriptWhole()
    ensures FindAll(JsImport, "import React from 'react';") == ["react"]
  {
    JsPlain();
    OneLineAgrees(JsImport, "import React from 'react';");
    JavaScriptExample();
  }

  /** A scan whose first match runs to the end of the text reports that match alone. */
  lemma SoleMatch(syn: Syntax, s: string, h: Hit)
    requires Match(syn, s) == Some(h) && h.end == |s|
    ensures FindAll(syn, s) == [h.group]
  {
    var m := MatcherOf(syn);
    MatcherAnchored(syn);
    assert s[0..] == s;
    ScanHit(m, s, 0);
    ScanAtEnd(m, s);
    GroupsCons(Later(h, 0), []);
  }

  /** A `using` directive broken over two lines: `\s+` runs over the line break, so the
      whole-text parser finds it, while neither line matches on its own. */
  lemma SplitUsing()
    ensures FindAll(Using, "using" + "\n" + "System;") == ["System"]
    ensures Tokens(Using, "using" + "\n" + "System;") == []
  {
    SplitUsingWhole();
    SplitUsingLines();
  }

  lemma SplitUsingWhole()
    ensures FindAll(Using, "using" + "\n" + "System;") == ["System"]
  {
    SplitUsingMatch();
    SoleMatch(Using, "using" + "\n" + "System;", Hit("System", 6, 13));
  }

  lemma SplitUsingMatch()
    ensures Match(Using, "using" + "\n" + "System;") == Some(Hit("System", 6, 13))
  {
    QualifiedLine("using", "\n", "System", "");
    assert "using" + "\n" + "System" + ";" + "" == "using" + "\n" + "System;";
  }

  lemma SplitUsingLines()
    ensures Tokens(Using, "using" + "\n" + "System;") == []
  {
    SplitUsingPlain();
    TokensCons(Using, "using", "System;");
    TokensSingle(Using, "System;");
    KeywordOnly();
    NoKeyword();
  }

  lemma SplitUsingPlain()
    ensures NoBoundary("using") && NoBoundary("System;")
  {
  }

  lemma KeywordOnly()
    ensures LineTokens(Using, "using") == []
  {
    KeywordAlone(Using, "");
    assert Keyword(Using) + "" == "using";
  }

  lemma NoKeyword()
    ensures LineTokens(Using, "System;") == []
  {
    KeywordMissing(Using, 'S', "ystem;");
    assert ['S'] + "ystem;" == "System;";
  }

  lemma IncludeAcrossMatch()
    ensures Match(Include, "#include <a" + "\n" + "b>") == Some(Hit("a\nb", 10, 14))
  {
    IncludeLine(" ", '<', "a\nb", '>', "");
    assert "#include" + " " + ['<'] + "a\nb" + ['>'] + "" == "#include <a" + "\n" + "b>";
  }

  /** `[^">]` admits a line break, so an include path may span lines. */
  lemma IncludeAcrossLines()
    ensures FindAll(Include, "#include <a" + "\n" + "b>") == ["a\nb"]
  {
    IncludeAcrossMatch();
    SoleMatch(Include, "#include <a" + "\n" + "b>", Hit("a\nb", 10, 14));
  }

  /** An `import` declaration broken after the keyword: found in the whole text, on no
      single line. */
  lemma SplitImport()
    ensures FindAll(Import, "import\njava.util.List;") == ["java.util.List"]
    ensures Tokens(Import, "import\njava.util.List;") == []
  {
    SplitImportWhole();
    SplitImportLines();
  }

  lemma SplitImportWhole()
    ensures FindAll(Import, "import\njava.util.List;") == ["java.util.List"]
  {
    SplitImportMatch();
    SoleMatch(Import, "import\njava.util.List;", Hit("java.util.List", 7, 22));
  }

  lemma SplitImportText()
    ensures "import\njava.util.List;" == "import" + "\n" + "java.util.List" + ";" + ""
  {
  }

  lemma SplitImportMatch()
    ensures Match(Import, "import\njava.util.List;") == Some(Hit("java.util.List", 7, 22))
  {
    SplitImportText();
    QualifiedLine("import", "\n", "java.util.List", "");
  }

  lemma SplitImportLines()
    ensures Tokens(Import, "import\njava.util.List;") == []
  {
    assert "import" + "\n" + "java.util.List;" == "import\njava.util.List;";
    SplitImportPlain();
    TokensCons(Import, "import", "java.util.List;");
    TokensSingle(Import, "java.util.List;");
    ImportKeywordOnly();
    ImportNoKeyword();
  }

  lemma SplitImportPlain()
    ensures NoBoundary("import") && NoBoundary("java.util.List;")
  {
  }

  lemma ImportKeywordOnly()
    ensures LineTokens(Import, "import") == []
  {
    KeywordAlone(Import, "");
    assert Keyword(Import) + "" == "import";
  }

  lemma ImportNoKeywordText()
    ensures "java.util.List;" == ['j'] + "ava.util.List;"
  {
  }

  lemma ImportNoKeyword()
    ensures LineTokens(Import, "java.util.List;") == []
  {
    ImportNoKeywordText();
    KeywordMissing(Import, 'j', "ava.util.List;");
  }

  /** An ES import whose `from` clause is on the next line: `\s+` before `from` runs over
      the line break in the whole text, while neither line matches on its own. */
  lemma SplitFrom()
    ensures FindAll(JsImport, "import a\nfrom 'x'") == ["x"]
    ensures Tokens(JsImport, "import a\nfrom 'x'") == []
  {
    SplitFromWhole();
    SplitFromLines();
  }

  lemma SplitFromWhole()
    ensures FindAll(JsImport, "import a\nfrom 'x'") == ["x"]
  {
    SplitFromMatch();
    SoleMatch(JsImport, "import a\nfrom 'x'", Hit("x", 15, 17));
  }

  lemma SplitFromText()
    ensures var l := "import a\nfrom 'x'";
      && l[0..6] == "import" && l[9..13] == "from" && l[15..16] == "x"
      && IsQuote(l[14]) && IsQuote(l[16])
  {
  }

  lemma SplitFromRuns()
    ensures var l := "import a\nfrom 'x'";
      && All(l, 0, 0, IsSpace) && All(l, 6, 7, IsSpace) && All(l, 7, 8, NotNewline)
      && All(l, 8, 9, IsSpace) && All(l, 13, 14, IsSpace) && All(l, 15, 16, NotNewline)
  {
  }

  lemma SplitFromMatch()
    ensures Match(JsImport, "import a\nfrom 'x'") == Some(Hit("x", 15, 17))
  {
    var l := "import a\nfrom 'x'";
    SplitFromText();
    SplitFromRuns();
    JsExact(l, 0, 7, 8, 9, Hit("x", 15, 17));
  }

  lemma SplitFromLines()
    ensures Tokens(JsImport, "import a\nfrom 'x'") == []
  {
    assert "import a" + "\n" + "from 'x'" == "import a\nfrom 'x'";
    SplitFromPlain();
    TokensCons(JsImport, "import a", "from 'x'");
    TokensSingle(JsImport, "from 'x'");
    NoFromClause();
    FromFirst();
  }

  lemma SplitFromPlain()
    ensures NoBoundary("import a") && NoBoundary("from 'x'")
  {
  }

  lemma NoFromClause()
    ensures LineTokens(JsImport, "import a") == []
  {
    JsNeedsFrom("import a");
    assert forall k :: 0 <= k < |"import a"| ==> "import a"[k] != 'f';
    NotContainsFirst("import a", "from");
  }

  lemma FromFirst()
    ensures LineTokens(JsImport, "from 'x'") == []
  {
    KeywordMissing(JsImport, 'f', "rom 'x'");
    assert ['f'] + "rom 'x'" == "from 'x'";
  }

  /** An `#include` whose path is on the next line: `\s+` runs over the line break. */
  lemma SplitInclude()
    ensures FindAll(Include, "#include\n<x>") == ["x"]
    ensures Tokens(Include, "#include\n<x>") == []
  {
    SplitIncludeWhole();
    SplitIncludeLines();
  }

  lemma SplitIncludeWhole()
    ensures FindAll(Include, "#include\n<x>") == ["x"]
  {
    SplitIncludeMatch();
    SoleMatch(Include, "#include\n<x>", Hit("x", 10, 12));
  }

  lemma SplitIncludeText()
    ensures "#include\n<x>" == "#include" + "\n" + ['<'] + "x" + ['>'] + ""
  {
  }

  lemma SplitIncludeMatch()
    ensures Match(Include, "#include\n<x>") == Some(Hit("x", 10, 12))
  {
    SplitIncludeText();
    IncludeLine("\n", '<', "x", '>', "");
  }

  lemma SplitIncludeLines()
    ensures Tokens(Include, "#include\n<x>") == []
  {
    assert "#include" + "\n" + "<x>" == "#include\n<x>";
    SplitIncludePlain();
    TokensCons(Include, "#include", "<x>");
    TokensSingle(Include, "<x>");
    IncludeKeywordOnly();
    IncludeNoKeyword();
  }

  lemma SplitIncludePlain()
    ensures NoBoundary("#include") && NoBoundary("<x>")
  {
  }

  lemma IncludeKeywordOnly()
    ensures LineTokens(Include, "#include") == []
  {
    KeywordAlone(Include, "");
    assert Keyword(Include) + "" == "#include";
  }

  lemma IncludeNoKeyword()
    ensures LineTokens(Include, "<x>") == []
  {
    KeywordMissing(Include, '<', "x>");
    assert ['<'] + "x>" == "<x>";
  }
}
