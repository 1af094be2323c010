/** `DependencyAnalyzer` of `src/services/dependency_analysis_service.py`: the same index,
    then three passes kept in fields (raw tokens per file, resolved paths per file, and the
    graph), and an export of the graph as adjacency lists. */
module AnalysisService {
  import opened Wrappers
  import opened OrderedDict
  import opened NamespaceIndex
  import opened Graphs
  import LanguageParsers
  import DependencyAnalyzer

  /** `get_close_matches(dependency, keys)`: a candidate list, best first. */
  type Oracle = (string, seq<string>) -> seq<string>

  /** The file has a parser in `PARSERS`. */
  predicate Supported(path: string) {
    DependencyAnalyzer.ParserFor(DependencyAnalyzer.Extension(path)).Some?
  }

  // ---------------------------------------------------------------------------
  // _parse_dependencies
  // ---------------------------------------------------------------------------

  /** The entry `_parse_dependencies` records for one file: none when unsupported, `[]`
      when the parser raises. */
  function RawItem(f: (string, string), python: string -> Option<seq<string>>): (r: Dict<string, seq<string>>)
    ensures |r| <= 1
    ensures |r| == 1 <==> Supported(f.0)
    ensures |r| == 1 ==> r[0].0 == f.0
  {
    match DependencyAnalyzer.ParserFor(DependencyAnalyzer.Extension(f.0))
    case None => []
    case Some(p) =>
      match DependencyAnalyzer.ParseWith(p, f.1, python)
      case None => [(f.0, [])]
      case Some(deps) => [(f.0, deps)]
  }

  /** The writes into `raw_dependencies`, file by file. */
  function RawEntries(files: Dict<string, string>, python: string -> Option<seq<string>>): Dict<string, seq<string>> {
    DependencyAnalyzer.Gather(files, (f: (string, string)) => RawItem(f, python))
  }

  /** `f` yields at most one entry for each element, under that element's key. */
  ghost predicate OwnKeyOrNothing<V>(xs: Dict<string, string>, f: ((string, string)) -> Dict<string, V>) {
    forall i :: 0 <= i < |xs| ==> |f(xs[i])| <= 1 && (|f(xs[i])| == 1 ==> f(xs[i])[0].0 == xs[i].0)
  }

  /** One more entry under a new key goes last. */
  lemma AppendKeys<V>(e: Dict<string, V>, k0: string, v0: V)
    requires k0 !in Keys(e)
    ensures Keys(e + [(k0, v0)]) == Keys(e) + [k0]
    ensures DistinctKeys(e) ==> DistinctKeys(e + [(k0, v0)])
  {
    PutNew(e, k0, v0);
    PutKeys(e, k0, v0);
    if DistinctKeys(e) {
      PutDistinct(e, k0, v0);
    }
  }

  /** One more entry under a new key leaves the other keys' values alone. */
  lemma AppendGet<V>(e: Dict<string, V>, k0: string, v0: V, k: string)
    requires k0 !in Keys(e)
    ensures Get(e + [(k0, v0)], k) == if k == k0 then Some(v0) else Get(e, k)
  {
    PutNew(e, k0, v0);
    PutGet(e, k0, v0, k);
  }

  /** Gathering entries under distinct keys of their own keeps the keys distinct, and a
      key is present exactly when its element yields an entry. */
  lemma {:induction false} SelectKeys<V>(xs: Dict<string, string>, f: ((string, string)) -> Dict<string, V>)
    requires DistinctKeys(xs) && OwnKeyOrNothing(xs, f)
    ensures DistinctKeys(DependencyAnalyzer.Gather(xs, f))
    ensures forall k :: k in Keys(DependencyAnalyzer.Gather(xs, f)) <==>
      exists i :: 0 <= i < |xs| && xs[i].0 == k && |f(xs[i])| == 1
    decreases |xs|
  {
    if |xs| > 0 {
      var n := |xs| - 1;
      var front := xs[..n];
      assert forall j :: 0 <= j < n ==> front[j] == xs[j];
      assert DistinctKeys(front) && OwnKeyOrNothing(front, f);
      SelectKeys(front, f);
      var e := DependencyAnalyzer.Gather(front, f);
      var x := f(xs[n]);
      var g := DependencyAnalyzer.Gather(xs, f);
      assert g == e + x;
      if |x| == 1 {
        assert x == [(x[0].0, x[0].1)];
        AppendKeys(e, x[0].0, x[0].1);
      } else {
        assert g == e;
      }
      forall k, i | 0 <= i < |xs| && xs[i].0 == k && |f(xs[i])| == 1 ensures k in Keys(g) {
        if i < n {
          assert front[i] == xs[i];
        }
      }
      forall k | k in Keys(g) ensures exists i :: 0 <= i < |xs| && xs[i].0 == k && |f(xs[i])| == 1 {
        if k in Keys(e) {
          var i :| 0 <= i < n && front[i].0 == k && |f(front[i])| == 1;
          assert xs[i] == front[i];
        } else {
          assert xs[n].0 == k && |f(xs[n])| == 1;
        }
      }
    }
  }

  /** The entry of the `i`-th element is found under its key. */
  lemma {:induction false} SelectGet<V>(xs: Dict<string, string>, f: ((string, string)) -> Dict<string, V>, i: nat)
    requires DistinctKeys(xs) && OwnKeyOrNothing(xs, f) && i < |xs| && |f(xs[i])| == 1
    ensures Get(DependencyAnalyzer.Gather(xs, f), xs[i].0) == Some(f(xs[i])[0].1)
    decreases |xs|
  {
    var n := |xs| - 1;
    var front := xs[..n];
    assert forall j :: 0 <= j < n ==> front[j] == xs[j];
    assert DistinctKeys(front) && OwnKeyOrNothing(front, f);
    SelectKeys(front, f);
    var e := DependencyAnalyzer.Gather(front, f);
    var x := f(xs[n]);
    assert DependencyAnalyzer.Gather(xs, f) == e + x;
    if |x| == 1 {
      assert x == [(x[0].0, x[0].1)];
      AppendGet(e, x[0].0, x[0].1, xs[i].0);
    } else {
      assert e + x == e;
    }
    if i < n {
      SelectGet(front, f, i);
      assert front[i] == xs[i];
    }
  }

  /** `raw_dependencies` after `_parse_dependencies` on a fresh analyzer: exactly the
      supported files are keys, each holding its parser's tokens, or `[]` when the parser
      raised. */
  lemma RawDependencies(files: Dict<string, string>, python: string -> Option<seq<string>>)
    requires DistinctKeys(files)
    ensures var raw := PutEach([], RawEntries(files, python));
      && DistinctKeys(raw)
      && (forall k :: k in Keys(raw) <==> k in Keys(files) && Supported(k))
      && (forall i :: 0 <= i < |files| && Supported(files[i].0) ==>
            var p := DependencyAnalyzer.ParserFor(DependencyAnalyzer.Extension(files[i].0)).value;
            Get(raw, files[i].0) == Some(if DependencyAnalyzer.ParseWith(p, files[i].1, python).Some?
                                         then DependencyAnalyzer.ParseWith(p, files[i].1, python).value else []))
  {
    var f := (x: (string, string)) => RawItem(x, python);
    assert OwnKeyOrNothing(files, f);
    SelectKeys(files, f);
    var raw := RawEntries(files, python);
    PutEachFresh(raw);
    forall k ensures k in Keys(raw) <==> k in Keys(files) && Supported(k) {
      if k in Keys(files) {
        var i :| 0 <= i < |files| && Keys(files)[i] == k;
        assert files[i].0 == k;
      }
    }
    forall i | 0 <= i < |files| && Supported(files[i].0)
      ensures Get(raw, files[i].0) == Some(RawItem(files[i], python)[0].1)
    {
      SelectGet(files, f, i);
    }
  }

  /** One more file, given what `ParseFile` found for it, adds its write, if any. */
  lemma RawStep(files: Dict<string, string>, python: string -> Option<seq<string>>, i: nat,
                parser: Option<LanguageParsers.Parser>, deps: Option<seq<string>>)
    requires i < |files|
    requires parser == DependencyAnalyzer.ParserFor(DependencyAnalyzer.Extension(files[i].0))
    requires parser.Some? ==> deps == DependencyAnalyzer.ParseWith(parser.value, files[i].1, python)
    ensures parser.None? ==> RawEntries(files[..i + 1], python) == RawEntries(files[..i], python)
    ensures parser.Some? ==>
      RawEntries(files[..i + 1], python) == RawEntries(files[..i], python) + [(files[i].0, if deps.Some? then deps.value else [])]
  {
    DependencyAnalyzer.GatherStep(files, (f: (string, string)) => RawItem(f, python), i);
    assert RawEntries(files[..i], python) + [] == RawEntries(files[..i], python);
  }

  /** `_parse_dependencies`, writing into `raw`. */
  method ParseDependencies(raw: Dict<string, seq<string>>, files: Dict<string, string>, python: string -> Option<seq<string>>)
    returns (r: Dict<string, seq<string>>)
    ensures r == PutEach(raw, RawEntries(files, python))
  {
    r := raw;
    for i := 0 to |files|
      invariant r == PutEach(raw, RawEntries(files[..i], python))
    {
      var filePath, content := files[i].0, files[i].1;
      var parser, deps := DependencyAnalyzer.ParseFile(filePath, content, python);
      RawStep(files, python, i, parser, deps);
      if parser.None? {
        continue;
      }
      var entry := if deps.Some? then deps.value else [];
      PutEachSnoc(raw, RawEntries(files[..i], python), filePath, entry);
      r := Put(r, filePath, entry);
    }
    assert files[..|files|] == files;
  }

  // ---------------------------------------------------------------------------
  // _resolve_dependency and resolve_dependencies
  // ---------------------------------------------------------------------------

  /** `_resolve_dependency`: an exact key, else the path of the oracle's best candidate. */
  function Resolve(d: Index, dep: string, closeMatches: Oracle): (r: Option<string>)
    ensures r.Some? ==> r.value in Values(d)
    ensures dep in Keys(d) ==> r == Get(d, dep)
  {
    if dep in Keys(d) then Get(d, dep)
    else
      var candidates := closeMatches(dep, Keys(d));
      if |candidates| > 0 then Get(d, candidates[0]) else None
  }

  /** When the oracle offers only keys, a token is unresolved exactly when it is not a
      key and the oracle offers nothing. */
  lemma ResolveNone(d: Index, dep: string, closeMatches: Oracle)
    requires forall c :: c in closeMatches(dep, Keys(d)) ==> c in Keys(d)
    ensures Resolve(d, dep, closeMatches).None? <==> dep !in Keys(d) && closeMatches(dep, Keys(d)) == []
  {
    var candidates := closeMatches(dep, Keys(d));
    if dep !in Keys(d) && |candidates| > 0 {
      assert candidates[0] in candidates;
    }
  }

  /** The resolutions of `deps` that are truthy, in order. */
  function Kept(d: Index, deps: seq<string>, closeMatches: Oracle): (r: seq<string>)
    ensures |r| <= |deps|
    ensures forall k :: 0 <= k < |r| ==> r[k] in Values(d) && r[k] != ""
    decreases |deps|
  {
    if |deps| == 0 then []
    else
      var m := Resolve(d, deps[|deps| - 1], closeMatches);
      Kept(d, deps[..|deps| - 1], closeMatches) + (if m.Some? && m.value != "" then [m.value] else [])
  }

  /** Resolution goes token by token. */
  lemma {:induction false} KeptAppend(d: Index, a: seq<string>, b: seq<string>, closeMatches: Oracle)
    ensures Kept(d, a + b, closeMatches) == Kept(d, a, closeMatches) + Kept(d, b, closeMatches)
    decreases |b|
  {
    if |b| == 0 {
      assert a + b == a;
    } else {
      var n := |b| - 1;
      assert (a + b)[..|a + b| - 1] == a + b[..n];
      assert (a + b)[|a + b| - 1] == b[n];
      KeptAppend(d, a, b[..n], closeMatches);
    }
  }

  /** A token that resolves to a non-empty path is kept; one that does not is dropped. */
  lemma KeptOne(d: Index, dep: string, closeMatches: Oracle)
    ensures var m := Resolve(d, dep, closeMatches);
      Kept(d, [dep], closeMatches) == if m.Some? && m.value != "" then [m.value] else []
  {
    assert [dep][..0] == [];
  }

  /** With the index built from `valid_files`, every kept path is a valid file. */
  lemma KeptKnown(validFiles: seq<string>, deps: seq<string>, closeMatches: Oracle)
    requires BuildIndex(validFiles).Some?
    ensures forall p :: p in Kept(BuildIndex(validFiles).value, deps, closeMatches) ==> p in validFiles
  {
    IndexValues(validFiles);
  }

  /** The inner loop of `resolve_dependencies` for one file. */
  method ResolveAll(d: Index, dependencies: seq<string>, closeMatches: Oracle) returns (resolved: seq<string>)
    ensures resolved == Kept(d, dependencies, closeMatches)
  {
    resolved := [];
    for k := 0 to |dependencies|
      invariant resolved == Kept(d, dependencies[..k], closeMatches)
    {
      assert dependencies[..k + 1][..k] == dependencies[..k];
      var resolvedPath := Resolve(d, dependencies[k], closeMatches);
      if resolvedPath.Some? && resolvedPath.value != "" {
        resolved := resolved + [resolvedPath.value];
      }
    }
    assert dependencies[..|dependencies|] == dependencies;
  }

  /** The writes into `resolved_dependencies`: every raw entry, its tokens resolved. */
  function ResolvedEntries(raw: Dict<string, seq<string>>, d: Index, closeMatches: Oracle): (r: Dict<string, seq<string>>)
    ensures Keys(r) == Keys(raw)
  {
    var r := seq(|raw|, i requires 0 <= i < |raw| => (raw[i].0, Kept(d, raw[i].1, closeMatches)));
    assert Keys(r) == Keys(raw);
    r
  }

  /** `resolved_dependencies` after `resolve_dependencies` on a fresh analyzer: the keys of
      `raw_dependencies` in the same order, each with its tokens resolved. */
  lemma ResolvedDependencies(raw: Dict<string, seq<string>>, d: Index, closeMatches: Oracle)
    requires DistinctKeys(raw)
    ensures var resolved := PutEach([], ResolvedEntries(raw, d, closeMatches));
      && Keys(resolved) == Keys(raw)
      && DistinctKeys(resolved)
      && (forall i :: 0 <= i < |raw| ==> Get(resolved, raw[i].0) == Some(Kept(d, raw[i].1, closeMatches)))
  {
    var es := ResolvedEntries(raw, d, closeMatches);
    assert DistinctKeys(es) by {
      forall i, j | 0 <= i < j < |es| ensures es[i].0 != es[j].0 {
        assert Keys(es)[i] == Keys(raw)[i] && Keys(es)[j] == Keys(raw)[j];
      }
    }
    PutEachFresh(es);
    forall i | 0 <= i < |raw| ensures Get(es, raw[i].0) == Some(Kept(d, raw[i].1, closeMatches)) {
      GetAt(es, i);
    }
  }

  /** `resolve_dependencies`, writing into `resolved`. */
  method ResolveDependencies(resolved: Dict<string, seq<string>>, raw: Dict<string, seq<string>>, d: Index, closeMatches: Oracle)
    returns (r: Dict<string, seq<string>>)
    ensures r == PutEach(resolved, ResolvedEntries(raw, d, closeMatches))
  {
    r := resolved;
    for i := 0 to |raw|
      invariant r == PutEach(resolved, ResolvedEntries(raw[..i], d, closeMatches))
    {
      var filePath, dependencies := raw[i].0, raw[i].1;
      var kept := ResolveAll(d, dependencies, closeMatches);
      assert ResolvedEntries(raw[..i + 1], d, closeMatches) == ResolvedEntries(raw[..i], d, closeMatches) + [(filePath, kept)];
      r := Put(r, filePath, kept);
    }
    assert raw[..|raw|] == raw;
  }

  // ---------------------------------------------------------------------------
  // build_graph
  // ---------------------------------------------------------------------------

  /** The edges `build_graph` adds: `(file_path, dep)` for every resolved path, in order. */
  function BuildEdges(resolved: Dict<string, seq<string>>): seq<(string, string)> {
    DependencyAnalyzer.Gather(resolved, (e: (string, seq<string>)) => DependencyAnalyzer.EdgesFrom(e.0, e.1))
  }

  /** `build_graph` */
  method BuildGraph(graph: DiGraph, resolved: Dict<string, seq<string>>)
    requires Valid(graph.State())
    modifies graph
    ensures Valid(graph.State())
    ensures graph.State() == AddEdges(old(graph.State()), BuildEdges(resolved))
  {
    ghost var g0 := graph.State();
    for i := 0 to |resolved|
      invariant Valid(graph.State())
      invariant graph.State() == AddEdges(g0, BuildEdges(resolved[..i]))
    {
      DependencyAnalyzer.GatherStep(resolved, (e: (string, seq<string>)) => DependencyAnalyzer.EdgesFrom(e.0, e.1), i);
      AddEdgesAppend(g0, BuildEdges(resolved[..i]), DependencyAnalyzer.EdgesFrom(resolved[i].0, resolved[i].1));
      DependencyAnalyzer.AddFileEdges(graph, resolved[i].0, resolved[i].1);
    }
    assert resolved[..|resolved|] == resolved;
  }

  /** The graph `build_graph` builds from nothing has the edge `u -> v` exactly when `v` is
      among the resolved paths of `u`; repeated pairs collapse into one edge. */
  lemma BuiltGraph(resolved: Dict<string, seq<string>>)
    ensures var g := AddEdges(Empty(), BuildEdges(resolved));
      && Valid(g)
      && forall u, v :: HasEdge(g, u, v) <==> exists i :: 0 <= i < |resolved| && resolved[i].0 == u && v in resolved[i].1
  {
    var es := BuildEdges(resolved);
    FromEdges(es);
    forall u, v ensures (u, v) in es <==> exists i :: 0 <= i < |resolved| && resolved[i].0 == u && v in resolved[i].1 {
      DependencyAnalyzer.GatherIn(resolved, (e: (string, seq<string>)) => DependencyAnalyzer.EdgesFrom(e.0, e.1), (u, v));
      forall i | 0 <= i < |resolved| {
        DependencyAnalyzer.EdgesFromIn(resolved[i].0, resolved[i].1, (u, v));
      }
    }
  }

  // ---------------------------------------------------------------------------
  // export_graph
  // ---------------------------------------------------------------------------

  const DependsOn := "Depends On"
  const UsedBy := "Used By"

  /** One node's record in the export. */
  type Entry = map<string, seq<string>>

  /** `entry.get(key, [])` */
  function Field(e: Entry, key: string): (r: seq<string>)
    ensures key in e ==> r == e[key]
    ensures key !in e ==> r == []
  {
    if key in e then e[key] else []
  }

  /** The record of node `n`: its successors, and its predecessors when it has any. */
  function EntryOf(g: Graph, n: string): Entry
    requires n in g.succ && n in g.pred
  {
    var e := map[DependsOn := g.succ[n]];
    if |g.pred[n]| > 0 then e[UsedBy := g.pred[n]] else e
  }

  /** What `export_graph` returns. */
  function Export(g: Graph): map<string, Entry>
    requires NodesOk(g)
  {
    map n | n in g.nodes :: EntryOf(g, n)
  }

  /** A node's record: `Depends On` holds exactly its successors; `Used By` is there
      exactly when it has a predecessor, and then holds exactly the predecessors; there is
      no other field. */
  lemma EntryShape(g: Graph, n: string)
    requires n in g.succ && n in g.pred
    ensures DependsOn in EntryOf(g, n) && EntryOf(g, n)[DependsOn] == g.succ[n]
    ensures UsedBy in EntryOf(g, n) <==> |g.pred[n]| > 0
    ensures Field(EntryOf(g, n), UsedBy) == g.pred[n]
    ensures forall k :: k in EntryOf(g, n) ==> k == DependsOn || k == UsedBy
  {
    assert DependsOn != UsedBy;
  }

  /** One record per node, each of the shape `EntryShape` gives. */
  lemma ExportShape(g: Graph)
    requires Valid(g)
    ensures forall n :: n in Export(g) <==> n in g.nodes
    ensures forall n :: n in Export(g) ==> DependsOn in Export(g)[n] && Export(g)[n][DependsOn] == g.succ[n]
    ensures forall n :: n in Export(g) ==> (UsedBy in Export(g)[n] <==> |g.pred[n]| > 0)
    ensures forall n :: n in Export(g) ==> Field(Export(g)[n], UsedBy) == g.pred[n]
    ensures forall n, k :: n in Export(g) && k in Export(g)[n] ==> k == DependsOn || k == UsedBy
  {
    forall n | n in Export(g) {
      EntryShape(g, n);
    }
  }

  /** `m` is among the dependencies of `n` in the export exactly when `n -> m` is an
      edge. */
  lemma ExportEdges(g: Graph, out: map<string, Entry>)
    requires Valid(g) && out == Export(g)
    ensures forall n, m :: n in out && m in Field(out[n], DependsOn) <==> HasEdge(g, n, m)
  {
    ExportShape(g);
  }

  /** The export is symmetric: `m` is among the dependencies of `n` exactly when `n` is
      among the users of `m`. */
  lemma ExportSymmetric(g: Graph, out: map<string, Entry>)
    requires Valid(g) && out == Export(g)
    ensures forall n, m :: n in out && m in Field(out[n], DependsOn) <==> m in out && n in Field(out[m], UsedBy)
  {
    ExportEdges(g, out);
    ExportUsers(g, out);
  }

  /** `used_by` lists exactly the sources of the edges into a node. */
  lemma ExportUsers(g: Graph, out: map<string, Entry>)
    requires Valid(g) && out == Export(g)
    ensures forall n, m :: m in out && n in Field(out[m], UsedBy) <==> HasEdge(g, n, m)
  {
    ExportShape(g);
  }

  /** Every path listed anywhere in the export is itself a key of it. */
  lemma ExportClosed(g: Graph, out: map<string, Entry>)
    requires Valid(g) && out == Export(g)
    ensures forall n, k, m :: n in out && k in out[n] && m in out[n][k] ==> m in out
  {
    ExportShape(g);
    ExportEdges(g, out);
    ExportUsers(g, out);
    forall n, k, m | n in out && k in out[n] && m in out[n][k] ensures m in out {
      assert m in Field(out[n], k);
      if k == DependsOn {
        assert HasEdge(g, n, m);
      } else {
        assert HasEdge(g, m, n);
      }
    }
  }

  // ---------------------------------------------------------------------------
  // The analyzer object
  // ---------------------------------------------------------------------------

  /** The service's `DependencyAnalyzer`. */
  class Analyzer {
    const files: Dict<string, string>
    const validFiles: seq<string>
    const namespaceMapping: Index
    var rawDependencies: Dict<string, seq<string>>
    var resolvedDependencies: Dict<string, seq<string>>
    const graph: DiGraph

    ghost predicate Valid()
      reads this, graph
    {
      BuildIndex(validFiles) == Some(namespaceMapping) && Graphs.Valid(graph.State())
    }

    constructor (files: Dict<string, string>, validFiles: seq<string>, namespaceMapping: Index)
      requires BuildIndex(validFiles) == Some(namespaceMapping)
      ensures this.files == files && this.validFiles == validFiles && this.namespaceMapping == namespaceMapping
      ensures rawDependencies == [] && resolvedDependencies == []
      ensures fresh(graph) && graph.State() == Empty() && Valid()
    {
      this.files := files;
      this.validFiles := validFiles;
      this.namespaceMapping := namespaceMapping;
      rawDependencies := [];
      resolvedDependencies := [];
      graph := new DiGraph();
    }

    /** `DependencyAnalyzer(files, valid_files)`, which raises while building the index
        when some valid path has neither `/` nor `.`. */
    static method Create(files: Dict<string, string>, validFiles: seq<string>) returns (r: Option<Analyzer>)
      ensures r.None? <==> exists f :: f in validFiles && '/' !in f && '.' !in f
      ensures r.Some? ==> fresh(r.value) && fresh(r.value.graph) && r.value.Valid()
      ensures r.Some? ==> r.value.files == files && r.value.validFiles == validFiles
      ensures r.Some? ==> r.value.rawDependencies == [] && r.value.resolvedDependencies == []
      ensures r.Some? ==> r.value.graph.State() == Empty()
    {
      BuildFails([], validFiles);
      var mapping := BuildNamespaceMapping(validFiles);
      if mapping.None? {
        return None;
      }
      var a := new Analyzer(files, validFiles, mapping.value);
      return Some(a);
    }

    /** `analyze`: the three passes in turn. */
    method Analyze(python: string -> Option<seq<string>>, closeMatches: Oracle)
      requires Valid()
      modifies this, graph
      ensures Valid()
      ensures rawDependencies == PutEach(old(rawDependencies), RawEntries(files, python))
      ensures resolvedDependencies == PutEach(old(resolvedDependencies), ResolvedEntries(rawDependencies, namespaceMapping, closeMatches))
      ensures graph.State() == AddEdges(old(graph.State()), BuildEdges(resolvedDependencies))
    {
      rawDependencies := ParseDependencies(rawDependencies, files, python);
      resolvedDependencies := ResolveDependencies(resolvedDependencies, rawDependencies, namespaceMapping, closeMatches);
      BuildGraph(graph, resolvedDependencies);
    }

    /** `export_graph` */
    method ExportGraph() returns (output: map<string, Entry>)
      requires Valid()
      ensures output == Export(graph.State())
    {
      ghost var g := graph.State();
      output := map[];
      var nodes := graph.nodes;
      for i := 0 to |nodes|
        invariant forall n :: n in output <==> n in nodes[..i]
        invariant forall n :: n in output ==> output[n] == EntryOf(g, n)
      {
        var node := nodes[i];
        var dependsOn := graph.succ[node];
        var usedBy := graph.pred[node];
        var entry := map[DependsOn := dependsOn];
        if |usedBy| > 0 {
          entry := entry[UsedBy := usedBy];
        }
        assert entry == EntryOf(g, node);
        assert forall n :: n in nodes[..i + 1] <==> n in nodes[..i] || n == node;
        output := output[node := entry];
      }
      assert nodes[..|nodes|] == nodes;
    }
  }
}
