/** The patterns on concrete lines, each proved from the declarative shapes (a match) or
    from the greedy runs the matcher takes (no match). */
module PatternExamples {
  import opened Strings
  import opened Wrappers
  import opened Patterns

  lemma UsingSystemText()
    ensures "using System;" == "using" + " " + "System" + ";" + ""
  {
  }

  lemma UsingSystem()
    ensures Match(Using, "using System;") == Some(Hit("System", 6, 13))
  {
    UsingSystemText();
    QualifiedLine("using", " ", "System", "");
  }

  /** Each dot-separated part of a qualified name is made of word characters. */
  lemma QualifiedJoin(a: string, b: string)
    requires forall k :: 0 <= k < |a| ==> IsQualifiedChar(a[k])
    requires forall k :: 0 <= k < |b| ==> IsQualifiedChar(b[k])
    ensures forall k :: 0 <= k < |a + "." + b| ==> IsQualifiedChar((a + "." + b)[k])
  {
  }

  lemma GenericName()
    ensures var tok := "System.Collections.Generic";
      forall k :: 0 <= k < |tok| ==> IsQualifiedChar(tok[k])
  {
    QualifiedJoin("System", "Collections");
    QualifiedJoin("System.Collections", "Generic");
    assert "System.Collections.Generic" == "System.Collections" + "." + "Generic";
  }

  lemma UsingGenericText()
    ensures "using System.Collections.Generic;" == "using" + " " + "System.Collections.Generic" + ";" + ""
  {
  }

  lemma UsingGeneric()
    ensures Match(Using, "using System.Collections.Generic;")
         == Some(Hit("System.Collections.Generic", 6, 33))
  {
    var tok := "System.Collections.Generic";
    GenericName();
    UsingGenericText();
    QualifiedLine("using", " ", tok, "");
  }

  lemma ImportListText()
    ensures "import java.util.List;" == "import" + " " + "java.util.List" + ";" + ""
  {
  }

  lemma ImportList()
    ensures Match(Import, "import java.util.List;") == Some(Hit("java.util.List", 7, 22))
  {
    var tok := "java.util.List";
    ImportListText();
    QualifiedLine("import", " ", tok, "");
  }

  lemma ImportFileText()
    ensures "import java.io.File;" == "import" + " " + "java.io.File" + ";" + ""
  {
  }

  lemma ImportFile()
    ensures Match(Import, "import java.io.File;") == Some(Hit("java.io.File", 7, 20))
  {
    var tok := "java.io.File";
    ImportFileText();
    QualifiedLine("import", " ", tok, "");
  }

  lemma IncludeAngleText()
    ensures "#include <iostream>" == "#include" + " " + ['<'] + "iostream" + ['>'] + ""
  {
  }

  lemma IncludeAngle()
    ensures Match(Include, "#include <iostream>") == Some(Hit("iostream", 10, 19))
  {
    IncludeAngleText();
    IncludeLine(" ", '<', "iostream", '>', "");
  }

  lemma IncludeQuotedText()
    ensures "#include \"custom.h\"" == "#include" + " " + ['"'] + "custom.h" + ['"'] + ""
  {
  }

  lemma IncludeQuoted()
    ensures Match(Include, "#include \"custom.h\"") == Some(Hit("custom.h", 10, 19))
  {
    IncludeQuotedText();
    IncludeLine(" ", '"', "custom.h", '"', "");
  }

  lemma IncludeMismatchedText()
    ensures "#include <x\"" == "#include" + " " + ['<'] + "x" + ['"'] + ""
  {
  }

  lemma IncludeMismatched()
    ensures Match(Include, "#include <x\"") == Some(Hit("x", 10, 12))
  {
    IncludeMismatchedText();
    IncludeLine(" ", '<', "x", '"', "");
  }

  lemma ReactText()
    ensures var l := "import React from 'react';";
      && l[0..6] == "import" && l[13..17] == "from" && l[19..24] == "react"
      && IsQuote(l[18]) && IsQuote(l[24])
  {
  }

  lemma ReactRuns()
    ensures var l := "import React from 'react';";
      && All(l, 0, 0, IsSpace) && All(l, 6, 7, IsSpace) && All(l, 7, 12, NotNewline)
      && All(l, 12, 13, IsSpace) && All(l, 17, 18, IsSpace) && All(l, 19, 24, NotNewline)
  {
    ReactHeadRuns();
    ReactTailRuns();
  }

  lemma ReactHeadRuns()
    ensures var l := "import React from 'react';";
      All(l, 0, 0, IsSpace) && All(l, 6, 7, IsSpace) && All(l, 7, 12, NotNewline)
  {
  }

  lemma ReactTailRuns()
    ensures var l := "import React from 'react';";
      All(l, 12, 13, IsSpace) && All(l, 17, 18, IsSpace) && All(l, 19, 24, NotNewline)
  {
  }

  lemma ImportReact()
    ensures Match(JsImport, "import React from 'react';") == Some(Hit("react", 19, 25))
  {
    var l := "import React from 'react';";
    ReactText();
    ReactRuns();
    JsExact(l, 0, 7, 12, 13, Hit("react", 19, 25));
  }

  lemma TrailingText()
    ensures var l := "import a from 'x'; // 'y'";
      && l[0..6] == "import" && l[9..13] == "from" && l[15..24] == "x'; // 'y"
      && IsQuote(l[14]) && IsQuote(l[24])
  {
  }

  lemma TrailingRuns()
    ensures var l := "import a from 'x'; // 'y'";
      && All(l, 0, 0, IsSpace) && All(l, 6, 7, IsSpace) && All(l, 7, 8, NotNewline)
      && All(l, 8, 9, IsSpace) && All(l, 13, 14, IsSpace)
  {
  }

  lemma TrailingGroup()
    ensures var l := "import a from 'x'; // 'y'";
      All(l, 15, 24, NotNewline)
  {
    var l := "import a from 'x'; // 'y'";
    assert l == "import a from '" + "x'; // 'y" + "'";
  }

  lemma ImportTrailingQuote()
    ensures Match(JsImport, "import a from 'x'; // 'y'") == Some(Hit("x'; // 'y", 15, 25))
  {
    var l := "import a from 'x'; // 'y'";
    TrailingText();
    TrailingRuns();
    TrailingGroup();
    JsExact(l, 0, 7, 8, 9, Hit("x'; // 'y", 15, 25));
  }

  lemma ImportSideEffect()
    ensures Match(JsImport, "import './App.css';").None?
  {
    JsNeedsFrom("import './App.css';");
    SideEffectNoFrom();
  }

  lemma SideEffectNoFrom()
    ensures !Contains("import './App.css';", "from")
  {
    SideEffectNoF();
    NotContainsFirst("import './App.css';", "from");
  }

  lemma SideEffectNoF()
    ensures var l := "import './App.css';";
      forall k :: 0 <= k < |l| ==> l[k] != 'f'
  {
  }

  lemma UsingStaticText()
    ensures "using static X;" == "using" + " " + "static" + [' '] + "X;"
  {
  }

  lemma UsingStatic()
    ensures Match(Using, "using static X;").None?
  {
    UsingStaticText();
    QualifiedRejected(Using, " ", "static", ' ', "X;");
  }

  lemma UsingAliasText()
    ensures "using A = B;" == "using" + " " + "A" + [' '] + "= B;"
  {
  }

  lemma UsingAlias()
    ensures Match(Using, "using A = B;").None?
  {
    UsingAliasText();
    QualifiedRejected(Using, " ", "A", ' ', "= B;");
  }

  lemma ImportWildcard()
    ensures Match(Import, "import java.util.*;").None?
  {
    var tok := "java.util.";
    assert "import java.util.*;" == "import" + " " + tok + ['*'] + ";";
    QualifiedRejected(Import, " ", tok, '*', ";");
  }

  lemma ImportStatic()
    ensures Match(Import, "import static a.B;").None?
  {
    assert "import static a.B;" == "import" + " " + "static" + [' '] + "a.B;";
    QualifiedRejected(Import, " ", "static", ' ', "a.B;");
  }

  lemma UsingIndented()
    ensures Match(Using, "  using X;") == Some(Hit("X", 8, 10))
  {
    var l := "  using X;";
    assert l[2..7] == "using";
    assert QualifiedShape("using", l, 2, Hit("X", 8, 10));
    MatchComplete(Using, l, Hit("X", 8, 10));
  }

  lemma UsingCommented()
    ensures Match(Using, "// using X;").None?
  {
    var l := "// using X;";
    SpanAt(l, 0, 0, IsSpace);
    assert l[0..][..5] == "// us";
  }

  /** `#` must be followed directly by `include`. */
  lemma IncludeSpacedHash()
    ensures Match(Include, "#  include <x>").None?
  {
    var l := "#  include <x>";
    SpanAt(l, 0, 0, IsSpace);
    assert l[0..][..8] == "#  inclu";
  }

  /** A macro include names no path: `[<"]` must follow the whitespace. */
  lemma IncludeMacro()
    ensures Match(Include, "#include MACRO").None?
  {
    var l := "#include MACRO";
    SpanAt(l, 0, 0, IsSpace);
    assert l[0..][..8] == "#include";
    SpanAt(l, 8, 9, IsSpace);
    assert !IsIncludeOpen(l[9]);
  }
}
