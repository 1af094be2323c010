/** `DependencyAnalyzer` of `src/analyzers/dependency_analyzer.py`: picks a parser by file
    extension, resolves every extracted token to a repository path through the namespace
    index, and records each resolution as a graph edge. */
module DependencyAnalyzer {
  import opened Strings
  import opened Wrappers
  import opened OrderedDict
  import opened NamespaceIndex
  import opened LanguageParsers
  import opened Graphs

  // ---------------------------------------------------------------------------
  // Choosing a parser
  // ---------------------------------------------------------------------------

  /** `f".{file_path.split('.')[-1]}"`: a dot and the text after the last dot, or the
      whole path after a dot when the path has none. */
  function Extension(path: string): (r: string)
    ensures |r| >= 1 && r[0] == '.' && '.' !in r[1..]
    ensures '.' in path ==> EndsWith(path, r)
    ensures '.' !in path ==> r == "." + path
  {
    var parts := Split(path, '.');
    JoinEnds(parts, '.');
    SplitSingle(path, '.');
    assert ("." + parts[|parts| - 1])[1..] == parts[|parts| - 1];
    "." + parts[|parts| - 1]
  }

  /** `PARSERS.get(ext)` */
  function ParserFor(ext: string): (r: Option<Parser>)
    ensures r.Some? <==> ext in {".py", ".cs", ".js", ".ts", ".tsx", ".cpp", ".h", ".java"}
    ensures r == Some(PythonParser) <==> ext == ".py"
  {
    if ext == ".py" then Some(PythonParser)
    else if ext == ".cs" then Some(DotNetParser)
    else if ext == ".js" || ext == ".ts" || ext == ".tsx" then Some(JavaScriptParser)
    else if ext == ".cpp" || ext == ".h" then Some(CppParser)
    else if ext == ".java" then Some(JavaParser)
    else None
  }

  /** `parser.parse(content)`; `python` stands for `PythonParser.parse`, and `None` for
      the exception it may raise. The other parsers never raise. */
  function ParseWith(p: Parser, content: string, python: string -> Option<seq<string>>): (r: Option<seq<string>>)
    ensures p != PythonParser ==> r == Some(Tokens(PatternOf(p).value, content))
  {
    if p == PythonParser then python(content) else Some(Tokens(PatternOf(p).value, content))
  }

  /** `PARSERS.get(ext)` followed by `parse`, as the analyzers run it. */
  method ParseFile(path: string, content: string, python: string -> Option<seq<string>>)
    returns (parser: Option<Parser>, deps: Option<seq<string>>)
    ensures parser == ParserFor(Extension(path))
    ensures parser.Some? ==> deps == ParseWith(parser.value, content, python)
  {
    parser := ParserFor(Extension(path));
    deps := None;
    if parser.Some? {
      deps := Parse(parser.value, content);
      if deps.None? {
        deps := python(content);
      }
    }
  }

  // ---------------------------------------------------------------------------
  // Resolving a token
  // ---------------------------------------------------------------------------

  /** The path of the first entry, in iteration order, that satisfies `p`. */
  function FirstWhere(d: Index, p: ((string, string)) -> bool): (r: Option<string>)
    ensures r.Some? ==> r.value in Values(d)
    decreases |d|
  {
    if |d| == 0 then None
    else if p(d[0]) then Some(d[0].1)
    else
      var r := FirstWhere(d[1..], p);
      assert r.Some? ==> r.value in Values(d) by {
        if r.Some? {
          var i :| 0 <= i < |d[1..]| && d[1..][i].1 == r.value;
          assert d[i + 1].1 == r.value;
        }
      }
      r
  }

  lemma {:induction false} FirstWhereIs(d: Index, p: ((string, string)) -> bool, i: nat)
    requires i < |d| && p(d[i]) && forall j :: 0 <= j < i ==> !p(d[j])
    ensures FirstWhere(d, p) == Some(d[i].1)
    decreases i
  {
    if i > 0 {
      assert d[1..][i - 1] == d[i];
      FirstWhereIs(d[1..], p, i - 1);
    }
  }

  lemma {:induction false} FirstWhereNone(d: Index, p: ((string, string)) -> bool)
    ensures FirstWhere(d, p).None? <==> forall j :: 0 <= j < |d| ==> !p(d[j])
    decreases |d|
  {
    if |d| > 0 {
      FirstWhereNone(d[1..], p);
      assert forall j :: 1 <= j < |d| ==> d[j] == d[1..][j - 1];
    }
  }

  /** `namespace.endswith(dependency)` */
  function KeyEndsWith(dep: string): ((string, string)) -> bool {
    (e: (string, string)) => EndsWith(e.0, dep)
  }

  /** `dependency.replace(".", "/") in file_path` */
  function PathContains(dep: string): ((string, string)) -> bool {
    (e: (string, string)) => Contains(e.1, ReplaceChar(dep, '.', '/'))
  }

  /** What `_resolve_dependency` returns: an exact key, else the first key that ends with
      the token, else the first path that contains the token with dots as slashes. */
  function Resolve(d: Index, dep: string): (r: Option<string>)
    ensures r.Some? ==> r.value in Values(d)
  {
    if dep in Keys(d) then Get(d, dep)
    else
      var bySuffix := FirstWhere(d, KeyEndsWith(dep));
      if bySuffix.Some? then bySuffix else FirstWhere(d, PathContains(dep))
  }

  /** `_resolve_dependency`, with its two early-return scans. */
  method ResolveDependency(d: Index, dependency: string) returns (r: Option<string>)
    ensures r == Resolve(d, dependency)
  {
    if dependency in Keys(d) {
      return Get(d, dependency);
    }
    for i := 0 to |d|
      invariant forall j :: 0 <= j < i ==> !EndsWith(d[j].0, dependency)
    {
      if EndsWith(d[i].0, dependency) {
        FirstWhereIs(d, KeyEndsWith(dependency), i);
        return Some(d[i].1);
      }
    }
    FirstWhereNone(d, KeyEndsWith(dependency));
    var target := ReplaceChar(dependency, '.', '/');
    for i := 0 to |d|
      invariant forall j :: 0 <= j < i ==> !Contains(d[j].1, target)
    {
      if Contains(d[i].1, target) {
        FirstWhereIs(d, PathContains(dependency), i);
        return Some(d[i].1);
      }
    }
    FirstWhereNone(d, PathContains(dependency));
    return None;
  }

  /** An exact key hit returns that key's path. */
  lemma ResolveExact(d: Index, dep: string)
    requires DistinctKeys(d)
    ensures forall i :: 0 <= i < |d| && d[i].0 == dep ==> Resolve(d, dep) == Some(d[i].1)
  {
    forall i | 0 <= i < |d| && d[i].0 == dep ensures Resolve(d, dep) == Some(d[i].1) {
      GetAt(d, i);
    }
  }

  /** Without an exact hit, the first key in iteration order that ends with the token
      wins. */
  lemma ResolveSuffix(d: Index, dep: string, i: nat)
    requires dep !in Keys(d) && i < |d| && EndsWith(d[i].0, dep)
    requires forall j :: 0 <= j < i ==> !EndsWith(d[j].0, dep)
    ensures Resolve(d, dep) == Some(d[i].1)
  {
    FirstWhereIs(d, KeyEndsWith(dep), i);
  }

  /** Without a key hit, the first path containing the token with dots as slashes wins. */
  lemma ResolvePath(d: Index, dep: string, i: nat)
    requires dep !in Keys(d) && forall j :: 0 <= j < |d| ==> !EndsWith(d[j].0, dep)
    requires i < |d| && Contains(d[i].1, ReplaceChar(dep, '.', '/'))
    requires forall j :: 0 <= j < i ==> !Contains(d[j].1, ReplaceChar(dep, '.', '/'))
    ensures Resolve(d, dep) == Some(d[i].1)
  {
    FirstWhereNone(d, KeyEndsWith(dep));
    FirstWhereIs(d, PathContains(dep), i);
  }

  /** A token is unresolved exactly when all three stages miss. */
  lemma ResolveNone(d: Index, dep: string)
    ensures Resolve(d, dep).None? <==>
      && dep !in Keys(d)
      && (forall j :: 0 <= j < |d| ==> !EndsWith(d[j].0, dep))
      && (forall j :: 0 <= j < |d| ==> !Contains(d[j].1, ReplaceChar(dep, '.', '/')))
  {
    FirstWhereNone(d, KeyEndsWith(dep));
    FirstWhereNone(d, PathContains(dep));
  }

  /** Every key ends with `""`, so the empty token resolves whenever the index has an
      entry, and to the first entry's path unless `""` is itself a key. */
  lemma ResolveEmpty(d: Index)
    requires |d| > 0
    ensures Resolve(d, "").Some?
    ensures "" !in Keys(d) ==> Resolve(d, "") == Some(d[0].1)
  {
    assert EndsWith(d[0].0, "");
    if "" !in Keys(d) {
      FirstWhereIs(d, KeyEndsWith(""), 0);
    }
  }

  /** With the index built from `valid_files`, every resolution is a valid file, and never
      `""` nor `"EXTERNAL"`. */
  lemma ResolveKnown(validFiles: seq<string>, dep: string)
    requires BuildIndex(validFiles).Some?
    requires Resolve(BuildIndex(validFiles).value, dep).Some?
    ensures var p := Resolve(BuildIndex(validFiles).value, dep).value;
      p in validFiles && p != "" && p != "EXTERNAL"
  {
    var p := Resolve(BuildIndex(validFiles).value, dep).value;
    IndexValues(validFiles);
    assert '.' !in "EXTERNAL" && '/' !in "EXTERNAL";
  }

  // ---------------------------------------------------------------------------
  // analyze
  // ---------------------------------------------------------------------------

  /** The kept resolutions of `deps`, in order: `mapped_deps` after both comprehensions. */
  function Mapped(d: Index, deps: seq<string>): (r: seq<string>)
    ensures |r| <= |deps|
    ensures forall k :: 0 <= k < |r| ==> r[k] in Values(d) && r[k] != "" && r[k] != "EXTERNAL"
    decreases |deps|
  {
    if |deps| == 0 then []
    else
      var m := Resolve(d, deps[|deps| - 1]);
      var keep := if m.Some? && m.value != "" && m.value != "EXTERNAL" then [m.value] else [];
      Mapped(d, deps[..|deps| - 1]) + keep
  }

  /** A path is kept exactly when some token resolves to it and it is neither `""` nor
      `"EXTERNAL"`. */
  lemma {:induction false} MappedIn(d: Index, deps: seq<string>, v: string)
    ensures v in Mapped(d, deps) <==>
      exists k :: 0 <= k < |deps| && Resolve(d, deps[k]) == Some(v) && v != "" && v != "EXTERNAL"
    decreases |deps|
  {
    if |deps| > 0 {
      var n := |deps| - 1;
      assert deps == deps[..n] + [deps[n]];
      MappedAppend(d, deps[..n], [deps[n]]);
      MappedOne(d, deps[n]);
      MappedIn(d, deps[..n], v);
      assert forall k :: 0 <= k < n ==> deps[..n][k] == deps[k];
    }
  }

  /** The kept paths of two token lists are those of the first, then those of the second. */
  lemma {:induction false} MappedAppend(d: Index, a: seq<string>, b: seq<string>)
    ensures Mapped(d, a + b) == Mapped(d, a) + Mapped(d, b)
    decreases |b|
  {
    if |b| == 0 {
      assert a + b == a;
    } else {
      var n := |b| - 1;
      assert (a + b)[..|a + b| - 1] == a + b[..n];
      assert (a + b)[|a + b| - 1] == b[n];
      MappedAppend(d, a, b[..n]);
    }
  }

  /** One token keeps its resolution unless it misses or resolves to `""` or `"EXTERNAL"`. */
  lemma MappedOne(d: Index, dep: string)
    ensures var m := Resolve(d, dep);
      Mapped(d, [dep]) == if m.Some? && m.value != "" && m.value != "EXTERNAL" then [m.value] else []
  {
    assert [dep][..0] == [];
  }

  /** The edges `(file_path, dep)` for every kept dependency. */
  function EdgesFrom(path: string, targets: seq<string>): seq<(string, string)> {
    seq(|targets|, k requires 0 <= k < |targets| => (path, targets[k]))
  }

  /** The edges one file contributes: none for an unsupported extension or a raising
      parser. */
  function FileEdges(path: string, content: string, d: Index, python: string -> Option<seq<string>>): seq<(string, string)> {
    match ParserFor(Extension(path))
    case None => []
    case Some(p) =>
      match ParseWith(p, content, python)
      case None => []
      case Some(deps) => EdgesFrom(path, Mapped(d, deps))
  }

  /** `f` of every element of `xs`, concatenated in order. */
  function Gather<A, B>(xs: seq<A>, f: A -> seq<B>): seq<B>
    decreases |xs|
  {
    if |xs| == 0 then [] else Gather(xs[..|xs| - 1], f) + f(xs[|xs| - 1])
  }

  lemma GatherStep<A, B>(xs: seq<A>, f: A -> seq<B>, i: nat)
    requires i < |xs|
    ensures Gather(xs[..i + 1], f) == Gather(xs[..i], f) + f(xs[i])
  {
    assert xs[..i + 1][..i] == xs[..i];
  }

  lemma {:induction false} GatherIn<A, B>(xs: seq<A>, f: A -> seq<B>, e: B)
    ensures e in Gather(xs, f) <==> exists i :: 0 <= i < |xs| && e in f(xs[i])
    decreases |xs|
  {
    if |xs| > 0 {
      var n := |xs| - 1;
      GatherIn(xs[..n], f, e);
      assert forall i :: 0 <= i < n ==> xs[..n][i] == xs[i];
    }
  }

  /** The edges `analyze` adds, file by file in iteration order. */
  function AnalyzeEdges(files: Dict<string, string>, d: Index, python: string -> Option<seq<string>>): seq<(string, string)> {
    Gather(files, (f: (string, string)) => FileEdges(f.0, f.1, d, python))
  }

  /** `DependencyAnalyzer`: the inputs and the index are fixed at construction; only the
      graph changes. */
  class Analyzer {
    const files: Dict<string, string>
    const validFiles: seq<string>
    const namespaceMapping: Index
    const graph: DiGraph

    ghost predicate Valid()
      reads this, graph
    {
      BuildIndex(validFiles) == Some(namespaceMapping) && Graphs.Valid(graph.State())
    }

    constructor (files: Dict<string, string>, validFiles: seq<string>, namespaceMapping: Index)
      requires BuildIndex(validFiles) == Some(namespaceMapping)
      ensures this.files == files && this.validFiles == validFiles && this.namespaceMapping == namespaceMapping
      ensures fresh(graph) && graph.State() == Empty() && Valid()
    {
      this.files := files;
      this.validFiles := validFiles;
      this.namespaceMapping := namespaceMapping;
      graph := new DiGraph();
    }

    /** `DependencyAnalyzer(files, valid_files)`, which raises while building the index
        when some valid path has neither `/` nor `.`. */
    static method Create(files: Dict<string, string>, validFiles: seq<string>) returns (r: Option<Analyzer>)
      ensures r.None? <==> exists f :: f in validFiles && '/' !in f && '.' !in f
      ensures r.Some? ==> fresh(r.value) && fresh(r.value.graph) && r.value.Valid()
      ensures r.Some? ==> r.value.files == files && r.value.validFiles == validFiles
      ensures r.Some? ==> r.value.graph.State() == Empty()
    {
      BuildFails([], validFiles);
      var mapping := BuildNamespaceMapping(validFiles);
      if mapping.None? {
        return None;
      }
      var a := new Analyzer(files, validFiles, mapping.value);
      return Some(a);
    }

    /** `analyze`: every supported file's resolved dependencies become edges; a file whose
        parser raises is skipped and the loop goes on. */
    method Analyze(python: string -> Option<seq<string>>)
      requires Valid()
      modifies graph
      ensures Valid()
      ensures graph.State() == AddEdges(old(graph.State()), AnalyzeEdges(files, namespaceMapping, python))
    {
      ghost var g0 := graph.State();
      for i := 0 to |files|
        invariant Valid()
        invariant graph.State() == AddEdges(g0, AnalyzeEdges(files[..i], namespaceMapping, python))
      {
        AnalyzeStep(g0, files, i, namespaceMapping, python);
        var filePath, content := files[i].0, files[i].1;
        var parser, dependencies := ParseFile(filePath, content, python);
        if parser.None? || dependencies.None? {
          continue;
        }
        var mappedDeps := MapDependencies(namespaceMapping, dependencies.value);
        AddFileEdges(graph, filePath, mappedDeps);
      }
      assert files[..|files|] == files;
    }
  }

  /** The `add_edge` calls for one file's kept dependencies. */
  method AddFileEdges(graph: DiGraph, filePath: string, targets: seq<string>)
    requires Valid(graph.State())
    modifies graph
    ensures Valid(graph.State())
    ensures graph.State() == AddEdges(old(graph.State()), EdgesFrom(filePath, targets))
  {
    ghost var g0 := graph.State();
    for k := 0 to |targets|
      invariant Valid(graph.State())
      invariant graph.State() == AddEdges(g0, EdgesFrom(filePath, targets[..k]))
    {
      EdgesFromSnoc(filePath, targets, k);
      AddEdgesSnoc(g0, EdgesFrom(filePath, targets[..k]), filePath, targets[k]);
      graph.AddEdge(filePath, targets[k]);
    }
    assert targets[..|targets|] == targets;
  }

  /** The two comprehensions of `analyze` over one file's tokens. */
  method MapDependencies(d: Index, dependencies: seq<string>) returns (mappedDeps: seq<string>)
    ensures mappedDeps == Mapped(d, dependencies)
  {
    mappedDeps := [];
    for k := 0 to |dependencies|
      invariant mappedDeps == Mapped(d, dependencies[..k])
    {
      assert dependencies[..k + 1][..k] == dependencies[..k];
      var dep := ResolveDependency(d, dependencies[k]);
      if dep.Some? && dep.value != "" && dep.value != "EXTERNAL" {
        mappedDeps := mappedDeps + [dep.value];
      }
    }
    assert dependencies[..|dependencies|] == dependencies;
  }

  /** One more file adds its own edges after those of the files before it. */
  lemma AnalyzeStep(g: Graph, files: Dict<string, string>, i: nat, d: Index, python: string -> Option<seq<string>>)
    requires Valid(g) && i < |files|
    ensures AddEdges(g, AnalyzeEdges(files[..i + 1], d, python))
         == AddEdges(AddEdges(g, AnalyzeEdges(files[..i], d, python)), FileEdges(files[i].0, files[i].1, d, python))
  {
    GatherStep(files, (f: (string, string)) => FileEdges(f.0, f.1, d, python), i);
    AddEdgesAppend(g, AnalyzeEdges(files[..i], d, python), FileEdges(files[i].0, files[i].1, d, python));
  }

  lemma EdgesFromSnoc(path: string, targets: seq<string>, k: nat)
    requires k < |targets|
    ensures EdgesFrom(path, targets[..k + 1]) == EdgesFrom(path, targets[..k]) + [(path, targets[k])]
  {
  }

  /** The edges from one file go from it to each of its targets. */
  lemma EdgesFromIn(path: string, targets: seq<string>, e: (string, string))
    ensures e in EdgesFrom(path, targets) <==> e.0 == path && e.1 in targets
  {
    if e.0 == path && e.1 in targets {
      var k :| 0 <= k < |targets| && targets[k] == e.1;
      assert EdgesFrom(path, targets)[k] == e;
    }
  }

  // ---------------------------------------------------------------------------
  // What analyze adds to the graph
  // ---------------------------------------------------------------------------

  /** The dependency list of one file, when its parser exists and does not raise. */
  function FileDeps(path: string, content: string, python: string -> Option<seq<string>>): Option<seq<string>> {
    match ParserFor(Extension(path))
    case None => None
    case Some(p) => ParseWith(p, content, python)
  }

  /** Edges of the whole run are exactly those of some file. */
  lemma AnalyzeEdgesIn(files: Dict<string, string>, d: Index, python: string -> Option<seq<string>>, e: (string, string))
    ensures e in AnalyzeEdges(files, d, python) <==>
      exists i :: 0 <= i < |files| && e in FileEdges(files[i].0, files[i].1, d, python)
  {
    GatherIn(files, (f: (string, string)) => FileEdges(f.0, f.1, d, python), e);
  }

  /** An edge of one file starts at that file and ends at a kept resolution of one of its
      tokens; a file without a parser, or whose parser raises, has none. */
  lemma FileEdgesIn(path: string, content: string, d: Index, python: string -> Option<seq<string>>, e: (string, string))
    ensures e in FileEdges(path, content, d, python) <==>
      && e.0 == path
      && FileDeps(path, content, python).Some?
      && e.1 in Mapped(d, FileDeps(path, content, python).value)
  {
    if FileDeps(path, content, python).Some? {
      EdgesFromIn(path, Mapped(d, FileDeps(path, content, python).value), e);
    }
  }

  /** The graph `analyze` builds from nothing: `u -> v` exactly when `u` is a file whose
      parser runs and `v` a kept resolution of one of its tokens; nodes come only from
      edges. */
  lemma AnalyzedGraph(files: Dict<string, string>, d: Index, python: string -> Option<seq<string>>)
    ensures var g := AddEdges(Empty(), AnalyzeEdges(files, d, python));
      && Valid(g)
      && (forall u, v :: HasEdge(g, u, v) <==>
            exists i :: 0 <= i < |files| && files[i].0 == u && FileDeps(u, files[i].1, python).Some?
                     && v in Mapped(d, FileDeps(u, files[i].1, python).value))
      && (forall n :: n in g.nodes <==> n in Endpoints(AnalyzeEdges(files, d, python)))
  {
    var es := AnalyzeEdges(files, d, python);
    FromEdges(es);
    forall u, v ensures (u, v) in es <==>
        exists i :: 0 <= i < |files| && files[i].0 == u && FileDeps(u, files[i].1, python).Some?
                 && v in Mapped(d, FileDeps(u, files[i].1, python).value)
    {
      AnalyzeEdgesIn(files, d, python, (u, v));
      forall i | 0 <= i < |files| {
        FileEdgesIn(files[i].0, files[i].1, d, python, (u, v));
      }
    }
  }

  /** With the index built from `valid_files`: every edge starts at a key of the file map
      with a supported extension, and ends at a valid file that is neither `""` nor
      `"EXTERNAL"`. */
  lemma AnalyzedEdgesKnown(files: Dict<string, string>, validFiles: seq<string>, python: string -> Option<seq<string>>)
    requires BuildIndex(validFiles).Some?
    ensures forall e :: e in AnalyzeEdges(files, BuildIndex(validFiles).value, python) ==>
      && e.0 in Keys(files) && ParserFor(Extension(e.0)).Some?
      && e.1 in validFiles && e.1 != "" && e.1 != "EXTERNAL"
  {
    var d := BuildIndex(validFiles).value;
    IndexValues(validFiles);
    forall e | e in AnalyzeEdges(files, d, python)
      ensures e.0 in Keys(files) && ParserFor(Extension(e.0)).Some?
      ensures e.1 in validFiles && e.1 != "" && e.1 != "EXTERNAL"
    {
      AnalyzeEdgesIn(files, d, python, e);
      var i :| 0 <= i < |files| && e in FileEdges(files[i].0, files[i].1, d, python);
      FileEdgesIn(files[i].0, files[i].1, d, python, e);
      assert Keys(files)[i] == e.0;
    }
  }
}
