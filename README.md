# repo-analayzer dependency engine, modelled in Dafny

This project models the dependency resolution and bundling engine of the Python repository
`orenkats/repo-analayzer`, and proves properties of the model. The engine works in five steps:

- It indexes every known file path under a set of lookup keys: namespaces and suffixes built
  from the path's `/`- and `.`-separated parts.
- It extracts import tokens from C#, JavaScript/TypeScript, Java and C++ sources with regular
  expressions.
- It resolves each token to a file path: an exact key, else a key ending with the token,
  else a path containing it.
- It builds a directed dependency graph and exports it as a `{"Depends On", "Used By"}`
  adjacency.
- It bundles a file with every file reachable from it in that adjacency.

The small helpers around it are also modelled: the extension filter and the two GitHub URL
splitters.

How the model is laid out:

- `wrappers.dfy` (`Wrappers`): `Option` and `Result`. `Err(message)` stands for a raised
  `ValueError`.
- `strings.dfy` (`Strings`): the Python string operations the engine uses, over
  `seq<char>`: `startswith`, `endswith`, `in`, one-character `replace`, `split`, `join`,
  `strip` and `splitlines`.
- `ordered_dict.dfy` (`OrderedDict`): a Python `dict` as an association list without
  repeated keys. Writing an existing key keeps its position and replaces its value, as in
  CPython. Iteration order matters to the resolver.
- `patterns.dfy` (`Patterns`): the four regular expressions, written as matchers with
  `re.match` semantics:
  - `^\s*using\s+([\w.]+);`
  - `^\s*import\s+([\w.]+);`
  - `^\s*import\s+.*\s+from\s+['"](.+)['"]`
  - `^\s*#include\s+[<"]([^">]+)[">]`

  Each matcher is proved sound and complete against a declarative "shape" of the pattern.
  For the JavaScript pattern, it is proved to pick the match that greedy backtracking picks.
- `language_parsers.dfy` (`LanguageParsers`): the line-based parsers, which apply `re.match`
  to each line of `splitlines()`. The copies in `src/utils/parsing_utils.py` have the same
  bodies and are modelled by the same members.
- `whole_text_parsers.dfy` (`WholeTextParsers`): the single-class parsers, which use
  `re.findall(..., re.MULTILINE)`. It proves they agree with the line-based ones when no
  match crosses a newline.
- `pattern_examples.dfy` and `whole_text_examples.dfy`: the concrete inputs of the tests and
  of the documented edge cases, worked through the matchers.
- `namespace_index.dfy` (`NamespaceIndex`): `_build_namespace_mapping`. Both classes have
  the same body, so one definition serves both.
- `digraph.dfy` (`Graphs`): a `networkx.DiGraph`, reduced to what the engine uses. It has
  insertion-ordered nodes and duplicate-free successor and predecessor lists, and a
  `DiGraph` class whose `AddEdge` updates them in place.
- `dependency_analyzer.dfy` (`DependencyAnalyzer`): the analyzer class of
  `src/analyzers/dependency_analyzer.py`.
- `analysis_service.dfy` (`AnalysisService`): the service class of
  `src/services/dependency_analysis_service.py`, including `export_graph`.
- `bundling.dfy` (`Bundling`): `BundleService`, over an in-memory store that stands for
  Redis.
- `filtering.dfy` (`Filtering`), `git_utils.dfy` (`GitUtils`) and `app_git_utils.dfy`
  (`AppGitUtils`): the helpers.

Where the code and its tests disagree, the model follows the code:

- `tests/test_parsers.py:14` expects `"React"` from `import React from 'react';`. The regex
  yields `"react"`, and `LanguageParsers.JavaScriptExample` proves that.
- `tests/test_analyzers.py` builds the analyzer with one argument. It expects every file to
  be a node. In the code, only an edge creates a node: `DependencyAnalyzer.AnalyzedGraph`.

## Model

| member | source | states |
|---|---|---|
| OrderedDict.Get | src/analyzers/dependency_analyzer.py:106-107 | `d[k]` on the association list: absent exactly when `k` is not a key, and a found value is a stored value |
| OrderedDict.PutGet | src/analyzers/dependency_analyzer.py:52-58 | after `d[k] = v`, reading `k` gives `v` and every other key reads as before |
| OrderedDict.PutKeys | src/analyzers/dependency_analyzer.py:52-58 | writing an existing key keeps the key order; writing a new key appends it |
| OrderedDict.PutDistinct | src/analyzers/dependency_analyzer.py:52-58 | writing keeps the keys free of repeats |
| OrderedDict.PutEachFresh | src/services/dependency_analysis_service.py:96-117 | writing distinct keys one after another into an empty dict gives exactly those entries in that order |
| Strings.Split | src/utils/git_utils.py:16 | `s.split(c)` has at least one part, no part contains `c`, and joining the parts with `c` gives back `s` |
| Strings.SplitJoin | src/analyzers/dependency_analyzer.py:47-49 | splitting a join of separator-free parts gives back the parts |
| Strings.SplitSingle | src/utils/git_utils.py:16-18 | `split` yields one part exactly when the separator does not occur |
| Strings.LStrip | app/utils/git_utils.py:21 | `lstrip(c)` removes the longest prefix made only of `c`, and what is left does not start with `c` |
| Strings.RStrip | app/utils/git_utils.py:21 | `rstrip(c)` removes the longest suffix made only of `c`, and what is left does not end with `c` |
| Strings.SplitLines | src/analyzers/parsers/language_parsers.py:50 | no line of `splitlines()` contains a line boundary, and there are no more lines than characters |
| Strings.SplitLinesCons | src/analyzers/parsers/language_parsers.py:50 | a boundary-free line followed by `\n` splits off as the first line |
| Strings.SliceLines | src/analyzers/parsers/language_parsers.py:50 | the reference reading of `splitlines()` from position `i` has no more lines than characters are left |
| Strings.SliceLinesAreSlices | src/analyzers/parsers/language_parsers.py:50 | each line of the reference reading is a slice of the text lying after `i` |
| Strings.SplitLinesSlices | src/analyzers/parsers/language_parsers.py:50 | `splitlines()` of the suffix from `i` is exactly the run of slices between consecutive line boundaries of the whole text, every boundary dropped, `\r\n` counted as one, no trailing empty line |
| Strings.SplitLinesContained | src/analyzers/parsers/language_parsers.py:50 | every line of `splitlines()` occurs in the text |
| Strings.ContainsTrans | src/analyzers/parsers/language_parsers.py:50-53 | what occurs in a part of a text occurs in the text |
| Patterns.Span | src/analyzers/parsers/language_parsers.py:51 | a greedy character-class run (`\s*`, `[\w.]+`, ...) ends at the first character outside the class |
| Patterns.QualifiedSound | src/analyzers/parsers/language_parsers.py:51 | a `using`/`import ...;` match has the pattern's shape: spaces, the keyword, at least one space, a non-empty `[\w.]` run as group 1, then `;` |
| Patterns.QualifiedComplete | src/analyzers/parsers/language_parsers.py:97 | every way the `[\w.]+;` pattern can match a line is the match found |
| Patterns.IncludeSound | src/analyzers/parsers/language_parsers.py:120 | an `#include` match has the pattern's shape, with `<` or `"` before group 1 and `"` or `>` after it |
| Patterns.IncludeComplete | src/analyzers/parsers/language_parsers.py:120 | every way the `#include` pattern can match is the match found |
| Patterns.LastQuote | src/analyzers/parsers/language_parsers.py:74 | finds the last quote character in a range, or proves there is none |
| Patterns.RestSound | src/analyzers/parsers/language_parsers.py:74 | the ` from 'x'` tail the matcher finds at a position has the pattern's shape |
| Patterns.RestComplete | src/analyzers/parsers/language_parsers.py:74 | whenever the ` from 'x'` tail can match at a position, the matcher finds a match there that starts at the same place and ends no earlier |
| Patterns.RestLater | src/analyzers/parsers/language_parsers.py:74 | a tail found at a later position is preferred under backtracking: it starts later, or at the same place and ends no earlier |
| Patterns.JsSound | src/analyzers/parsers/language_parsers.py:74 | a JavaScript import match has the pattern's shape, with `.*` on one line |
| Patterns.JsComplete | src/analyzers/parsers/language_parsers.py:74 | whenever the JavaScript pattern can match, there is a match, and it is the one greedy `.*` and `(.+)` prefer |
| Patterns.JsExact | src/analyzers/parsers/language_parsers.py:74 | with one `from` and its closing quote last, the match is exactly that shape |
| Patterns.JsLastFrom | src/analyzers/parsers/language_parsers.py:74 | with one `from` and the closing quote last, at most one shape is preferred |
| Patterns.JsNeedsFrom | src/analyzers/parsers/javascript_parser.py:11 | a JavaScript match needs a `from`, so a side-effect-only import never matches |
| Patterns.MatchSound | src/analyzers/parsers/language_parsers.py:51-120 | for all four patterns, whatever the matcher returns is a match of the pattern |
| Patterns.MatchComplete | src/analyzers/parsers/language_parsers.py:51-120 | for all four patterns, any match of the pattern makes the matcher succeed with the preferred match, and the three fixed patterns with exactly that match |
| Patterns.ParseFacts | src/analyzers/parsers/language_parsers.py:51-120 | group 1 is a non-empty slice of the line of the pattern's token class, followed by `;` (using/import), or framed by the delimiters (include, JavaScript) |
| Patterns.MatchFacts | src/analyzers/parsers/language_parsers.py:51-120 | the same facts for the matcher's result |
| Patterns.ParsePrefix | src/analyzers/parsers/cpp_parser.py:11 | a match depends only on the text up to its end |
| Patterns.MatchPrefixGrows | src/analyzers/parsers/javascript_parser.py:11 | a match of a prefix of a text implies a match of the whole text |
| Patterns.MatchExtend | src/analyzers/parsers/dotnet_parser.py:11 | for the three fixed patterns, the match of a prefix is the match of any longer text |
| Patterns.MatchPrefixSame | src/analyzers/parsers/java_parser.py:18 | a match ending inside a prefix is also the match of the prefix |
| Patterns.MatchShift | src/analyzers/parsers/language_parsers.py:51-120 | a leading whitespace character only shifts the match by one (`^\s*`) |
| Patterns.MatchAfterSpaces | src/analyzers/parsers/language_parsers.py:51-120 | leading whitespace only shifts the match by its length, so indented statements match |
| Patterns.BlankNoMatch | src/analyzers/parsers/language_parsers.py:51-120 | a line of whitespace only never matches |
| Patterns.QualifiedLine | src/analyzers/parsers/language_parsers.py:51-97 | for either keyword (`using`, `import`), `kw + spaces + tok + ";" + rest` matches with group `tok` for any qualified `tok`, the match ending just after the `;` |
| Patterns.QualifiedRejected | src/analyzers/parsers/language_parsers.py:97 | a qualified run followed by anything but `;` never matches, so `using A = B;` and `import java.util.*;` yield nothing |
| Patterns.IncludeLine | src/analyzers/parsers/language_parsers.py:120 | `#include`, spaces, any opening delimiter, a token without `"`/`>` and any closing delimiter match with that token, the match ending just after the closing delimiter |
| Patterns.KeywordMissing | src/analyzers/parsers/language_parsers.py:51-120 | a line whose first non-space character cannot start the keyword never matches, so `// using X;` yields nothing |
| Patterns.KeywordAlone | src/analyzers/parsers/language_parsers.py:51-120 | the keyword directly followed by a non-space never matches (`usingX;`, `#includex`) |
| PatternExamples.UsingSystem | src/analyzers/parsers/language_parsers.py:51 | `using System;` matches with group `System` |
| PatternExamples.UsingGeneric | src/analyzers/parsers/language_parsers.py:51 | `using System.Collections.Generic;` matches with that namespace |
| PatternExamples.ImportList | src/analyzers/parsers/language_parsers.py:97 | `import java.util.List;` matches with `java.util.List` |
| PatternExamples.ImportFile | src/analyzers/parsers/language_parsers.py:97 | `import java.io.File;` matches with `java.io.File` |
| PatternExamples.IncludeAngle | src/analyzers/parsers/language_parsers.py:120 | `#include <iostream>` matches with `iostream` |
| PatternExamples.IncludeQuoted | src/analyzers/parsers/language_parsers.py:120 | `#include "custom.h"` matches with `custom.h` |
| PatternExamples.IncludeMismatched | src/analyzers/parsers/language_parsers.py:120 | mismatched delimiters `<x"` are accepted |
| PatternExamples.ImportReact | src/analyzers/parsers/language_parsers.py:74 | `import React from 'react';` matches with `react` |
| PatternExamples.ImportTrailingQuote | src/analyzers/parsers/language_parsers.py:74 | in `import a from 'x'; // 'y'` the group runs to the last quote: `x'; // 'y` |
| PatternExamples.ImportSideEffect | src/analyzers/parsers/language_parsers.py:74 | `import './App.css';` does not match |
| PatternExamples.UsingStatic | src/analyzers/parsers/language_parsers.py:51 | `using static X;` does not match |
| PatternExamples.UsingAlias | src/analyzers/parsers/language_parsers.py:51 | `using A = B;` does not match |
| PatternExamples.ImportWildcard | src/analyzers/parsers/language_parsers.py:97 | `import java.util.*;` does not match |
| PatternExamples.ImportStatic | src/analyzers/parsers/language_parsers.py:97 | `import static a.B;` does not match |
| PatternExamples.UsingIndented | src/analyzers/parsers/language_parsers.py:51 | an indented `using X;` matches |
| PatternExamples.UsingCommented | src/analyzers/parsers/language_parsers.py:51 | `// using X;` does not match |
| PatternExamples.IncludeSpacedHash | src/analyzers/parsers/language_parsers.py:120 | `#  include <x>` does not match: `#include` must be written without inner spaces |
| PatternExamples.IncludeMacro | src/analyzers/parsers/language_parsers.py:120 | `#include MACRO` does not match: a `<` or `"` must follow the whitespace |
| LanguageParsers.PatternOf | src/analyzers/parsers/language_parsers.py:6-123 | every parser but the Python one has a regular expression |
| LanguageParsers.LineTokens | src/analyzers/parsers/language_parsers.py:51-53 | one line gives at most one token; it gives one exactly when the pattern matches, and that token has the pattern's shape and occurs in the line |
| LanguageParsers.PerLine | src/analyzers/parsers/language_parsers.py:49-54 | at most one token per line, each of the pattern's shape |
| LanguageParsers.PerLineAppend | src/analyzers/parsers/language_parsers.py:49-54 | tokens come in line order: the lines of `a + b` give the tokens of `a` then those of `b` |
| LanguageParsers.Tokens | src/utils/parsing_utils.py:47-95 | no more tokens than lines, each of the pattern's shape, and none for empty content; the duplicate bodies in this file are the same function |
| LanguageParsers.ParseLines | src/analyzers/parsers/language_parsers.py:118-123 | the append-in-a-loop over `splitlines()` returns exactly `Tokens` |
| LanguageParsers.Parse | src/analyzers/parsers/language_parsers.py:39-123 | dispatch: the Python parser has no model here, and every other parser returns its pattern's `Tokens` |
| LanguageParsers.TokensCons | src/analyzers/parsers/language_parsers.py:50-53 | a first line followed by `\n` contributes its own token ahead of the rest |
| LanguageParsers.PerLineContained | src/analyzers/parsers/language_parsers.py:50-53 | every token drawn from lines that all occur in a text occurs in that text |
| LanguageParsers.TokensContain | src/analyzers/parsers/language_parsers.py:49-54 | every dependency a line-based parser reports occurs in the file content |
| LanguageParsers.DotNetExample | src/analyzers/parsers/language_parsers.py:49-54 | `using System;\nusing System.Collections.Generic;` gives `["System", "System.Collections.Generic"]` |
| LanguageParsers.JavaExample | src/analyzers/parsers/language_parsers.py:95-100 | `import java.util.List;\nimport java.io.File;` gives `["java.util.List", "java.io.File"]` |
| LanguageParsers.CppExample | src/analyzers/parsers/language_parsers.py:118-123 | `#include <iostream>\n#include "custom.h"` gives `["iostream", "custom.h"]` |
| LanguageParsers.JavaScriptExample | src/analyzers/parsers/language_parsers.py:72-77 | `import React from 'react';` gives `["react"]` (not the `"React"` the test expects) |
| LanguageParsers.JavaScriptLastQuote | src/analyzers/parsers/language_parsers.py:74 | `import a from 'x'; // 'y'` gives `["x'; // 'y"]` |
| LanguageParsers.JavaScriptSideEffect | src/analyzers/parsers/language_parsers.py:74 | `import './App.css';` gives `[]` |
| LanguageParsers.DotNetStatic | src/analyzers/parsers/language_parsers.py:51 | `using static X;` gives `[]` |
| LanguageParsers.DotNetAlias | src/analyzers/parsers/language_parsers.py:51 | `using A = B;` gives `[]` |
| LanguageParsers.JavaWildcard | src/analyzers/parsers/language_parsers.py:97 | `import java.util.*;` gives `[]` |
| LanguageParsers.JavaStatic | src/analyzers/parsers/language_parsers.py:97 | `import static a.B;` gives `[]` |
| LanguageParsers.DotNetIndented | src/analyzers/parsers/language_parsers.py:51 | an indented statement gives its token |
| LanguageParsers.DotNetCommented | src/analyzers/parsers/language_parsers.py:51 | a commented-out statement gives `[]` |
| LanguageParsers.CppMismatched | src/analyzers/parsers/language_parsers.py:120 | `#include <x"` gives `["x"]` |
| WholeTextParsers.MatcherRegular | src/analyzers/parsers/dotnet_parser.py:11 | each pattern's matcher stays inside the text, skips leading whitespace and depends only on the text up to its end |
| WholeTextParsers.ScanFound | src/analyzers/parsers/java_parser.py:18 | every `findall` match is a slice of the content, and the matches come in order without overlapping |
| WholeTextParsers.HitAt | src/analyzers/parsers/cpp_parser.py:11 | a match at a position is a slice of the content after that position |
| WholeTextParsers.FindAll | src/analyzers/parsers/javascript_parser.py:11 | every token `findall` returns has the pattern's token shape |
| WholeTextParsers.FindAllFacts | src/analyzers/parsers/dotnet_parser.py:11 | the tokens are the groups of ordered, non-overlapping matches in the content |
| WholeTextParsers.FindAllContains | src/analyzers/parsers/java_parser.py:18 | every token occurs in the content |
| WholeTextParsers.Parse | src/analyzers/parsers/cpp_parser.py:11 | dispatch to `findall`: the Python parser has no model here, and every other token has the pattern's shape |
| WholeTextParsers.ScanHit | src/analyzers/parsers/javascript_parser.py:11 | at a line start where the pattern matches, `findall` takes the match and resumes at its end |
| WholeTextParsers.ScanMiss | src/analyzers/parsers/javascript_parser.py:11 | elsewhere `findall` moves on by one character |
| WholeTextParsers.BlankLine | src/analyzers/parsers/dotnet_parser.py:11 | a blank line contributes nothing under `findall` |
| WholeTextParsers.LineMatch | src/analyzers/parsers/java_parser.py:18 | a match inside one line gives the per-line token of that line |
| WholeTextParsers.LineMiss | src/analyzers/parsers/java_parser.py:18 | no match at a line start gives no per-line token either |
| WholeTextParsers.LineStep | src/analyzers/parsers/cpp_parser.py:11 | when the line at a line start is safe, `findall` and the per-line parser agree on that line |
| WholeTextParsers.PerLineHitsOf | src/analyzers/parsers/language_parsers.py:49-54 | the per-line parser stated through the matcher is the per-line parser |
| WholeTextParsers.LinesAtSplit | src/analyzers/parsers/language_parsers.py:50 | with `\n` as the only boundary, the lines from a position are `splitlines()` of the rest |
| WholeTextParsers.AgreeFrom | src/analyzers/parsers/dotnet_parser.py:11 | under the per-line safety condition, `findall` from a line start equals the per-line parser over the remaining lines |
| WholeTextParsers.FindAllAgrees | src/analyzers/parsers/java_parser.py:18 | `findall` equals the per-line parser when `\n` is the only line boundary and no match crosses a line |
| WholeTextParsers.OneLineAgrees | src/analyzers/parsers/cpp_parser.py:11 | on single-line content the two styles agree for every pattern |
| WholeTextExamples.TwoLines | src/analyzers/parsers/dotnet_parser.py:11 | for two lines whose first line matches a fixed pattern, `findall` equals the per-line parser |
| WholeTextExamples.DotNetWhole | src/analyzers/parsers/dotnet_parser.py:11 | `using System;\nusing System.Collections.Generic;` gives both namespaces |
| WholeTextExamples.JavaWhole | src/analyzers/parsers/java_parser.py:18 | `import java.util.List;\nimport java.io.File;` gives both classes |
| WholeTextExamples.CppWhole | src/analyzers/parsers/cpp_parser.py:11 | `#include <iostream>\n#include "custom.h"` gives both headers |
| WholeTextExamples.JavaScriptWhole | src/analyzers/parsers/javascript_parser.py:11 | `import React from 'react';` gives `["react"]` |
| WholeTextExamples.SoleMatch | src/analyzers/parsers/javascript_parser.py:11 | a match that spans the whole content is the only token |
| WholeTextExamples.SplitUsing | src/analyzers/parsers/dotnet_parser.py:11 | `using\nSystem;` gives `["System"]` under `findall`, because `\s+` crosses the newline, but `[]` per line |
| WholeTextExamples.IncludeAcrossLines | src/analyzers/parsers/cpp_parser.py:11 | `#include <a\nb>` gives the token `a\nb`, because `[^">]` crosses newlines |
| WholeTextExamples.KeywordOnly | src/analyzers/parsers/language_parsers.py:51 | the line `using` alone gives no token |
| WholeTextExamples.NoKeyword | src/analyzers/parsers/language_parsers.py:51 | the line `System;` alone gives no token |
| WholeTextExamples.SplitImport | src/analyzers/parsers/java_parser.py:18 | `import\njava.util.List;` gives `["java.util.List"]` under `findall`, because `\s+` crosses the newline, but `[]` per line |
| WholeTextExamples.ImportKeywordOnly | src/analyzers/parsers/language_parsers.py:97 | the line `import` alone gives no token |
| WholeTextExamples.ImportNoKeyword | src/analyzers/parsers/language_parsers.py:97 | the line `java.util.List;` alone gives no token |
| WholeTextExamples.SplitFrom | src/analyzers/parsers/javascript_parser.py:11 | `import a\nfrom 'x'` gives `["x"]` under `findall`, because `\s+` before `from` crosses the newline, but `[]` per line |
| WholeTextExamples.NoFromClause | src/analyzers/parsers/language_parsers.py:74 | the line `import a` alone gives no token, having no `from` |
| WholeTextExamples.FromFirst | src/analyzers/parsers/language_parsers.py:74 | the line `from 'x'` alone gives no token |
| WholeTextExamples.SplitInclude | src/analyzers/parsers/cpp_parser.py:11 | `#include\n<x>` gives `["x"]` under `findall`, because `\s+` crosses the newline, but `[]` per line |
| WholeTextExamples.IncludeKeywordOnly | src/analyzers/parsers/language_parsers.py:120 | the line `#include` alone gives no token |
| WholeTextExamples.IncludeNoKeyword | src/analyzers/parsers/language_parsers.py:120 | the line `<x>` alone gives no token |
| NamespaceIndex.Parts | src/analyzers/dependency_analyzer.py:47 | `path.replace("/", ".").split(".")` has at least one part |
| NamespaceIndex.SuffixKeys | src/analyzers/dependency_analyzer.py:56-58 | one suffix key `".".join(parts[i:])` per `i` below the bound |
| NamespaceIndex.BuildNamespaceMapping | src/analyzers/dependency_analyzer.py:45-60 | the nested loops that fill the dict compute exactly `BuildIndex` |
| NamespaceIndex.PathKeysNone | src/analyzers/dependency_analyzer.py:47-48 | `parts[-2]` fails exactly for a path with neither `/` nor `.` |
| NamespaceIndex.BuildFails | src/analyzers/dependency_analyzer.py:46-48 | building fails exactly when some valid path has neither `/` nor `.` |
| NamespaceIndex.IndexValues | src/analyzers/dependency_analyzer.py:52-58 | every value of the mapping is a valid path |
| NamespaceIndex.IndexGet | src/analyzers/dependency_analyzer.py:45-58 | each key maps to the last valid path that generates it |
| NamespaceIndex.LastOwnerIs | src/analyzers/dependency_analyzer.py:46-58 | the last path that generates a key owns it |
| NamespaceIndex.LastOwnerNone | src/analyzers/dependency_analyzer.py:46-58 | a key has no owner exactly when no valid path generates it |
| NamespaceIndex.IndexKeys | src/analyzers/dependency_analyzer.py:45-58 | the key order is first-insertion order over all generated keys, without repeats |
| NamespaceIndex.KeysOfPath | src/analyzers/dependency_analyzer.py:47-58 | `dir/name.ext` has the keys `name`, `dir.name`, `dir.name.ext` and `name.ext`, in that order |
| NamespaceIndex.ThreeParts | src/analyzers/dependency_analyzer.py:47-58 | the keys of a three-part path: `parts[-2]`, the join of `parts[:-1]`, and the two suffixes |
| NamespaceIndex.IndexOfOne | src/analyzers/dependency_analyzer.py:45-60 | the mapping of one path `dir/name.ext` lists its four keys in insertion order |
| NamespaceIndex.Collision | src/analyzers/dependency_analyzer.py:45-58 | for `d1/n.e` and `d2/n.e`, the shared key `n` stays first but maps to the second path, while `d1.n` still maps to the first |
| NamespaceIndex.CollisionOf | src/services/dependency_analysis_service.py:51-64 | in general: a shared key keeps the first path's position and takes the last path's value |
| NamespaceIndex.TwoBuild | src/services/dependency_analysis_service.py:51-66 | building over two paths writes the first path's keys, then the second's |
| Graphs.Empty | src/analyzers/dependency_analyzer.py:33 | a new graph is well formed |
| Graphs.AddNodeValid | src/analyzers/dependency_analyzer.py:90 | adding a node keeps the graph well formed, appends a new node only, and adds no edge |
| Graphs.LinkValid | src/analyzers/dependency_analyzer.py:90 | linking two nodes keeps the graph well formed |
| Graphs.LinkEdges | src/analyzers/dependency_analyzer.py:90 | linking adds exactly the one edge |
| Graphs.AddEdgeFacts | src/analyzers/dependency_analyzer.py:90 | `add_edge(u, v)` keeps the graph well formed, adds exactly the edge `(u, v)`, and adds each endpoint as a node only if it is new, so repeated edges collapse |
| Graphs.AddEdges | src/services/dependency_analysis_service.py:147-149 | a sequence of `add_edge` calls keeps the graph well formed |
| Graphs.AddEdgesAppend | src/services/dependency_analysis_service.py:147-149 | adding `a + b` is adding `a`, then `b` |
| Graphs.AddEdgesFacts | src/services/dependency_analysis_service.py:147-149 | after a sequence of `add_edge` calls, the edges are the old ones plus the added pairs, and the nodes are the old ones plus their new endpoints in first-seen order |
| Graphs.FromEdges | src/analyzers/dependency_analyzer.py:79-92 | a graph built from edges alone has exactly those edges, and its nodes are exactly their endpoints |
| Graphs.DiGraph.AddEdge | src/analyzers/dependency_analyzer.py:90 | the method updates the node and adjacency fields in place to the pure `AddEdge` |
| Graphs.DiGraph.constructor | src/analyzers/dependency_analyzer.py:33 | a new `DiGraph` holds the empty graph |
| DependencyAnalyzer.Extension | src/analyzers/dependency_analyzer.py:68 | `"." + path.split(".")[-1]` is a dot followed by dot-free text; it ends the path when the path has a dot, and is `"." + path` otherwise |
| DependencyAnalyzer.ParserFor | src/analyzers/dependency_analyzer.py:12-21 | `PARSERS.get(ext)` is found exactly for the eight listed extensions, and gives the Python parser exactly for `.py` |
| DependencyAnalyzer.ParseWith | src/analyzers/dependency_analyzer.py:76 | a parser other than the Python one runs its regular expression over the content, and never fails |
| DependencyAnalyzer.ParseFile | src/analyzers/dependency_analyzer.py:67-76 | the extension lookup and the parse that `analyze` performs for one file |
| DependencyAnalyzer.FirstWhere | src/analyzers/dependency_analyzer.py:110-117 | the value of the first entry meeting a test is a stored value |
| DependencyAnalyzer.FirstWhereIs | src/analyzers/dependency_analyzer.py:110-112 | the scan returns the value of the first entry that meets the test |
| DependencyAnalyzer.FirstWhereNone | src/analyzers/dependency_analyzer.py:110-117 | the scan finds nothing exactly when no entry meets the test |
| DependencyAnalyzer.Resolve | src/analyzers/dependency_analyzer.py:106-120 | a resolution is always a value of the mapping |
| DependencyAnalyzer.ResolveDependency | src/analyzers/dependency_analyzer.py:95-120 | the method with its two early-return loops computes `Resolve` |
| DependencyAnalyzer.ResolveExact | src/analyzers/dependency_analyzer.py:106-107 | an exact key hit returns that key's value |
| DependencyAnalyzer.ResolveSuffix | src/analyzers/dependency_analyzer.py:110-112 | otherwise the value of the first key, in iteration order, that ends with the token |
| DependencyAnalyzer.ResolvePath | src/analyzers/dependency_analyzer.py:115-117 | otherwise the first path containing the token with `.` replaced by `/` |
| DependencyAnalyzer.ResolveNone | src/analyzers/dependency_analyzer.py:106-120 | `None` exactly when all three tests fail for every entry |
| DependencyAnalyzer.ResolveEmpty | src/analyzers/dependency_analyzer.py:110-112 | an empty token resolves whenever the mapping is non-empty, to the first key's path unless `""` is itself a key |
| DependencyAnalyzer.ResolveKnown | src/analyzers/dependency_analyzer.py:46-58 | a resolution over the built mapping is a valid path, and never `""` or `"EXTERNAL"` |
| DependencyAnalyzer.Mapped | src/analyzers/dependency_analyzer.py:79-82 | the filtered resolutions are no more than the tokens, are mapping values, and are neither empty nor `"EXTERNAL"` |
| DependencyAnalyzer.MappedIn | src/analyzers/dependency_analyzer.py:79-82 | a path is kept exactly when some token resolves to it and it is neither `""` nor `"EXTERNAL"` |
| DependencyAnalyzer.MappedAppend | src/analyzers/dependency_analyzer.py:79-82 | the kept paths of `a + b` are those of `a`, then those of `b`: they come in token order |
| DependencyAnalyzer.MappedOne | src/analyzers/dependency_analyzer.py:79-82 | one token keeps its resolution unless it is unresolved, `""` or `"EXTERNAL"` |
| DependencyAnalyzer.MapDependencies | src/analyzers/dependency_analyzer.py:79-82 | the two list comprehensions compute `Mapped` |
| DependencyAnalyzer.AddFileEdges | src/analyzers/dependency_analyzer.py:89-90 | the edge loop of one file adds exactly the edges from that file to its mapped paths |
| DependencyAnalyzer.GatherIn | src/analyzers/dependency_analyzer.py:67-90 | an edge comes from the loop exactly when it comes from one of the files |
| DependencyAnalyzer.EdgesFromIn | src/analyzers/dependency_analyzer.py:89-90 | the edges of one file are exactly the pairs of that file with one of its targets |
| DependencyAnalyzer.Analyzer.constructor | src/analyzers/dependency_analyzer.py:23-36 | the analyzer holds the inputs, the built mapping and a new empty graph |
| DependencyAnalyzer.Analyzer.Create | src/analyzers/dependency_analyzer.py:23-36 | construction fails exactly when a valid path has neither `/` nor `.`, and otherwise yields a fresh analyzer with an empty graph |
| DependencyAnalyzer.Analyzer.Analyze | src/analyzers/dependency_analyzer.py:62-92 | `analyze` adds, in file order, the edges of each supported file to its mapped paths; a failing parser adds none and the loop goes on |
| DependencyAnalyzer.AnalyzeStep | src/analyzers/dependency_analyzer.py:67-90 | one more file adds that file's edges after the others |
| DependencyAnalyzer.FileEdgesIn | src/analyzers/dependency_analyzer.py:67-90 | an edge from one file goes from that file to a mapped path of its parse, and needs a supported extension and a parse that succeeds |
| DependencyAnalyzer.AnalyzeEdgesIn | src/analyzers/dependency_analyzer.py:67-90 | an edge of the analysis is an edge of one of the files |
| DependencyAnalyzer.AnalyzedGraph | src/analyzers/dependency_analyzer.py:79-92 | after `analyze` from empty, `u -> v` is an edge exactly when `v` is a mapped resolution of a token of file `u`; the nodes are exactly the endpoints, so a file without resolved dependencies is not a node |
| DependencyAnalyzer.AnalyzedEdgesKnown | src/analyzers/dependency_analyzer.py:67-90 | every edge source is a supported file, and every target is a valid path other than `""` and `"EXTERNAL"` |
| AnalysisService.RawItem | src/services/dependency_analysis_service.py:88-99 | one file contributes one entry under its own path exactly when its extension is supported |
| AnalysisService.SelectKeys | src/services/dependency_analysis_service.py:87-99 | the recorded keys are distinct, and are exactly the files that contribute an entry |
| AnalysisService.SelectGet | src/services/dependency_analysis_service.py:87-99 | each recorded file reads its own entry |
| AnalysisService.RawDependencies | src/services/dependency_analysis_service.py:87-99 | `raw_dependencies` has distinct keys, exactly the supported files, and each holds its parse result, or `[]` when the parser raised |
| AnalysisService.RawStep | src/services/dependency_analysis_service.py:88-99 | one loop step records nothing for an unsupported file, and otherwise the parse or `[]` |
| AnalysisService.ParseDependencies | src/services/dependency_analysis_service.py:83-99 | the loop writes exactly those entries into `raw_dependencies` |
| AnalysisService.Resolve | src/services/dependency_analysis_service.py:130-140 | an exact hit returns the mapped path, and every result is a mapping value |
| AnalysisService.ResolveNone | src/services/dependency_analysis_service.py:130-140 | when the fuzzy oracle offers only keys, the result is `None` exactly when the token is not a key and the oracle offers nothing |
| AnalysisService.Kept | src/services/dependency_analysis_service.py:110-117 | the kept resolutions are no more than the tokens, are mapping values, and are non-empty |
| AnalysisService.KeptAppend | src/services/dependency_analysis_service.py:110-113 | resolution goes token by token, keeping order |
| AnalysisService.KeptOne | src/services/dependency_analysis_service.py:111-115 | one token is kept exactly when it resolves to a non-empty path |
| AnalysisService.KeptKnown | src/services/dependency_analysis_service.py:130-140 | every kept path is a valid path |
| AnalysisService.ResolveAll | src/services/dependency_analysis_service.py:108-115 | the inner loop computes `Kept` |
| AnalysisService.ResolvedEntries | src/services/dependency_analysis_service.py:107-117 | one resolved entry per raw entry, under the same key |
| AnalysisService.ResolvedDependencies | src/services/dependency_analysis_service.py:107-117 | `resolved_dependencies` has exactly the keys of `raw_dependencies`, and each holds the kept resolutions of its raw tokens |
| AnalysisService.ResolveDependencies | src/services/dependency_analysis_service.py:101-117 | the loop writes exactly those entries |
| AnalysisService.BuildGraph | src/services/dependency_analysis_service.py:142-149 | the nested loop adds the edges from each file to its resolved paths, in order |
| AnalysisService.BuiltGraph | src/services/dependency_analysis_service.py:147-149 | the edges are exactly `{(f, d) : d in resolved[f]}`, with repeats collapsed |
| AnalysisService.Field | src/services/bundling_service.py:25-26 | `entry.get(key, [])`: the key's list when the key is present, `[]` when it is absent |
| AnalysisService.EntryShape | src/services/dependency_analysis_service.py:160-170 | a node's entry has `Depends On` = its successors, and has `Used By` exactly when it has predecessors, listing them; it has no other key |
| AnalysisService.ExportShape | src/services/dependency_analysis_service.py:158-172 | the export has one key per node, and each entry has the shape above |
| AnalysisService.ExportEdges | src/services/dependency_analysis_service.py:160-168 | `m` is in `out[n]["Depends On"]` exactly when `n -> m` is an edge |
| AnalysisService.ExportUsers | src/services/dependency_analysis_service.py:165-170 | `n` is in `out[m].get("Used By", [])` exactly when `n -> m` is an edge |
| AnalysisService.ExportSymmetric | src/services/dependency_analysis_service.py:160-170 | `m` is in `out[n]["Depends On"]` exactly when `n` is in `out[m].get("Used By", [])` |
| AnalysisService.ExportClosed | src/services/dependency_analysis_service.py:160-170 | every path listed anywhere in the export is itself a key |
| AnalysisService.Analyzer.constructor | src/services/dependency_analysis_service.py:27-42 | the service starts with empty raw and resolved dependencies, the built mapping and an empty graph |
| AnalysisService.Analyzer.Create | src/services/dependency_analysis_service.py:27-42 | construction fails exactly when a valid path has neither `/` nor `.` |
| AnalysisService.Analyzer.Analyze | src/services/dependency_analysis_service.py:68-81 | `analyze` parses, then resolves, then builds the graph, with each field set to its step's result |
| AnalysisService.Analyzer.ExportGraph | src/services/dependency_analysis_service.py:151-172 | the loop over the nodes builds exactly `Export` of the graph |
| Bundling.GraphKey | src/services/bundling_service.py:41 | `dependency_map:{id}` ends with the repository id |
| Bundling.ContentKey | src/services/bundling_service.py:50 | `file_content:{id}:{path}` carries the id and ends with the path |
| Bundling.ContentKeyInjective | src/services/bundling_service.py:50 | different paths of one repository have different content keys |
| Bundling.ReachOne | src/services/bundling_service.py:24-31 | a listed neighbour of the target is reachable |
| Bundling.ReachExtend | src/services/bundling_service.py:24-31 | a listed neighbour of a reachable key is reachable |
| Bundling.ReachableFrom | src/services/bundling_service.py:22-33 | a reachable file is a neighbour of the target or of a reachable key |
| Bundling.WalkInside | src/services/bundling_service.py:22-33 | a set closed under steps from the target holds every file of every walk |
| Bundling.Fresh | src/services/bundling_service.py:29-31 | the files enqueued are the listed files not yet collected |
| Bundling.EnqueueFresh | src/services/bundling_service.py:29-31 | the append loop extends the queue with exactly those files, in order |
| Bundling.Shrinks | src/services/bundling_service.py:33 | collecting something new shrinks the set of the graph's listed files not yet collected |
| Bundling.Expanded | src/services/bundling_service.py:23-33 | expanding a key keeps the walk invariant; it either collects something new or enqueues nothing |
| Bundling.Skipped | src/services/bundling_service.py:23-24 | popping a file that is not a key keeps the walk invariant |
| Bundling.CollectedAll | src/services/bundling_service.py:22-35 | once every collected file is expanded, the collected set is exactly the reachable set |
| Bundling.ContentOr | src/services/bundling_service.py:50-51 | the stored content when it is present and non-empty, otherwise exactly `Error: Content for {f} not found.` |
| Bundling.BundleService.constructor | src/services/bundling_service.py:5-10 | the service holds the repository id and the store |
| Bundling.BundleService.GetAllRelatedFiles | src/services/bundling_service.py:12-35 | fails exactly when the target is not a key; otherwise returns exactly the files reachable from the target in one or more steps, expanding only keys, and the loop ends even on cycles |
| Bundling.BundleService.GenerateBundle | src/services/bundling_service.py:37-53 | fails exactly when the stored map is missing or empty or lacks the target; otherwise the bundle's keys are the target and the files reachable from it, each with its content or the placeholder |
| Bundling.BundleService.GenerateAllBundles | src/services/bundling_service.py:55-65 | fails exactly when the stored map is missing or empty; otherwise one bundle per key, holding the key and every file reachable from it, each with its content or the placeholder, as `GenerateBundle` builds it |
| Filtering.FilterFilesIn | src/utils/filtering.py:13-17 | an entry is kept exactly when it is an entry of `files` whose path ends with one of the extensions |
| Filtering.FilterFilesKeys | src/utils/filtering.py:13-17 | a path is kept exactly when it is a path of `files` ending with one of the extensions |
| Filtering.FilterFilesGet | src/utils/filtering.py:13-17 | the result is a sub-map: a kept path reads the same content, and any other path reads nothing |
| Filtering.FilterFilesAppend | src/utils/filtering.py:13-17 | the kept entries keep their order |
| Filtering.FilterFilesDistinct | src/utils/filtering.py:13-17 | distinct paths stay distinct |
| Filtering.FilterPathsIn | src/utils/filtering.py:18-20 | a valid path is kept exactly when it ends with one of the extensions |
| Filtering.FilterPathsAppend | src/utils/filtering.py:18-20 | the filtered list is an order-preserving subsequence, and a repeated path stays repeated |
| Filtering.FilterPathsOne | src/utils/filtering.py:19 | one path on its own is kept exactly when it has an allowed ending |
| Filtering.FilterNone | src/utils/filtering.py:16-19 | no extensions give an empty map and an empty list |
| Filtering.FilterIdempotent | src/utils/filtering.py:13-21 | filtering twice with the same extensions is filtering once |
| GitUtils.DropGit | src/utils/git_utils.py:21-22 | a trailing `.git` is removed once; other names are kept |
| GitUtils.ParseGitUrl | src/utils/git_utils.py:13-24 | fails exactly when `github.com` is absent or there are fewer than five `/`-parts, with the first message in the first case; otherwise the owner is the second-to-last part and the repository the last part without `.git` |
| GitUtils.PrefixSplit | src/utils/git_utils.py:16 | `https://github.com/` contributes the parts `https:`, `` and `github.com` |
| GitUtils.PrefixContains | src/utils/git_utils.py:13 | a URL with that prefix contains `github.com` |
| GitUtils.ValidIff | src/utils/git_utils.py:37 | behind the prefix, `is_valid_git_url` holds exactly when one more `/` follows |
| GitUtils.ValidParses | src/utils/git_utils.py:13-18 | a valid URL parses without error |
| GitUtils.ParseRoundTrip | src/utils/git_utils.py:16-24 | `https://github.com/o/r` gives owner `o` and repository `r` without `.git` |
| GitUtils.TrailingSlash | src/utils/git_utils.py:20 | a trailing `/` shifts the parts: the owner becomes the repository name, and the repository is empty |
| GitUtils.DropGitOnce | src/utils/git_utils.py:21-22 | only one `.git` is removed, so `x.git.git` gives `x.git` |
| AppGitUtils.Segments | app/utils/git_utils.py:21 | the segments of a path are never empty as a list |
| AppGitUtils.ParseGitUrl | app/utils/git_utils.py:17-36 | fails exactly when `github.com` is absent or the path has fewer than two segments; otherwise gives segment 0, segment 1 without `.git`, and segment 3 as the branch after a `tree` segment, else `main` |
| AppGitUtils.ValidIff | app/utils/git_utils.py:49-54 | behind the prefix, `is_valid_git_url` holds exactly when the first two parts that follow are non-empty |
| AppGitUtils.ValidIsValid | app/utils/git_utils.py:49-54 | a URL valid here is also valid for the older test |
| AppGitUtils.ValidNamesHost | app/utils/git_utils.py:17 | a valid URL contains `github.com`, so the first check of parsing passes |
| AppGitUtils.ShortPathFails | app/utils/git_utils.py:21-24 | a path with no inner `/` after stripping fails |
| AppGitUtils.EmptyPathFails | app/utils/git_utils.py:21-24 | the empty path and `/` split to `[""]` and fail |
| AppGitUtils.SegmentsJoin | app/utils/git_utils.py:21 | segments joined by `/`, with or without a leading `/`, split back into themselves |
| AppGitUtils.ParseRoundTrip | app/utils/git_utils.py:26-36 | `/o/r` gives owner `o`, repository `r` without `.git`, and branch `main` |
| AppGitUtils.ParseBranch | app/utils/git_utils.py:29-31 | `/o/r/tree/b` gives branch `b` |
| AppGitUtils.TreeWithoutBranch | app/utils/git_utils.py:29-31 | `/o/r/tree` keeps branch `main` |

## Left out

- The Python parser, an `ast` walk, is a function parameter here; it returns `None` when it raises. `ast` itself is not part of this model.
- AnalysisService.Resolve: the `difflib.get_close_matches` fallback is an oracle parameter returning candidate keys, because it rests on floating-point similarity ratios. A candidate that is not a key gives `None` here, where the source would raise `KeyError`. `ResolveNone` assumes an oracle that offers only keys.
- `networkx` itself is not modelled: its `json_graph` export in the analyzer's `export_graph`, its node attributes, and its graph class beyond nodes, successors and predecessors.
- AnalysisService.Analyzer.ExportGraph: the export is a Dafny `map`, so the order of its keys is not modelled. The order of each `Depends On` and `Used By` list is kept.
- Bundling.BundleService.GenerateBundle: the `sorted(...)` iteration order does not show in a `map`, so it is not modelled.
- Bundling.BundleService.GenerateAllBundles: returns the bundles it builds, where the source only prints their sizes.
- Redis and JSON serialisation are an in-memory `Store` of two maps from key strings. The async wrapper `analyze_and_export_dependencies` and its storage calls are left out.
- GitHub clients, FastAPI routes, startup code and filesystem helpers are network, HTTP and file I/O, and are not part of this model.
- AppGitUtils.ParseGitUrl: takes the URL's path as a second parameter, because `urlparse` is not modelled.
- `print` logging is dropped everywhere.
- Strings.IsWordChar: `\w` is ASCII letters, digits and `_`. Python's `\w` also admits other Unicode letters and digits.
- WholeTextParsers.FindAllAgrees: agreement with the per-line parsers is proved only when `\n` is the only line boundary in the content and no match crosses a line. Neither holds in general, as `WholeTextExamples.SplitUsing`, `SplitImport`, `SplitFrom`, `SplitInclude` and `IncludeAcrossLines` show.
- The service's parsers come from `src/utils/parsing_utils.py`, whose bodies match the analyzer's, so both classes use `LanguageParsers`. The service's `PARSERS` table and `_build_namespace_mapping` are also identical, so both classes share `DependencyAnalyzer.ParserFor`, `DependencyAnalyzer.Extension` and `NamespaceIndex.BuildIndex`.
- Exceptions other than a failing Python parse cannot arise in the modelled parsers. The `except` branch in the analyzer therefore needs only that case.
- `filter_source_files` returns new containers and leaves its inputs unchanged. That holds trivially of the pure functions here, so it has no lemma of its own.
