/** `BundleService` of `src/services/bundling_service.py`: a breadth-first walk over a
    stored dependency map to collect every file related to a target, and the bundle of
    those files' contents. */
module Bundling {
  import opened Wrappers
  import opened AnalysisService

  /** A dependency map as stored: the export of `export_graph`. */
  type Adjacency = map<string, Entry>

  /** The key-value store, seen through the two kinds of key the service reads:
      `dependency_map:{repo_id}` and `file_content:{repo_id}:{path}`. A missing key is an
      absent value. */
  datatype Store = Store(graphs: map<string, Adjacency>, texts: map<string, string>)

  function GraphKey(repoId: string): (k: string)
    ensures |k| == 15 + |repoId| && k[15..] == repoId
  {
    "dependency_map:" + repoId
  }

  function ContentKey(repoId: string, path: string): (k: string)
    ensures |k| == 14 + |repoId| + |path| && k[13..13 + |repoId|] == repoId && k[14 + |repoId|..] == path
  {
    "file_content:" + repoId + ":" + path
  }

  /** Distinct paths of one repository are read under distinct keys. */
  lemma ContentKeyInjective(repoId: string, p: string, q: string)
    requires ContentKey(repoId, p) == ContentKey(repoId, q)
    ensures p == q
  {
    assert p == ContentKey(repoId, p)[14 + |repoId|..];
  }

  /** `depends_on + used_by` of a node that is a key. */
  function Neighbours(graph: Adjacency, f: string): seq<string>
    requires f in graph
  {
    Field(graph[f], DependsOn) + Field(graph[f], UsedBy)
  }

  // ---------------------------------------------------------------------------
  // What get_all_related_files collects
  // ---------------------------------------------------------------------------

  /** The walk may go from `a` to `b`: `a` is a key, and `b` one of its listed files. */
  ghost predicate Step(graph: Adjacency, a: string, b: string) {
    a in graph && b in Neighbours(graph, a)
  }

  /** A walk of at least one step. */
  ghost predicate Walk(graph: Adjacency, p: seq<string>) {
    |p| >= 2 && forall i :: 0 <= i < |p| - 1 ==> Step(graph, p[i], p[i + 1])
  }

  /** `x` is reached from `t` in one or more steps. */
  ghost predicate Reachable(graph: Adjacency, t: string, x: string) {
    exists p :: Walk(graph, p) && p[0] == t && p[|p| - 1] == x
  }

  lemma ReachOne(graph: Adjacency, t: string, x: string)
    requires Step(graph, t, x)
    ensures Reachable(graph, t, x)
  {
    var p := [t, x];
    assert Walk(graph, p);
  }

  lemma ReachExtend(graph: Adjacency, t: string, x: string, y: string)
    requires Reachable(graph, t, x) && Step(graph, x, y)
    ensures Reachable(graph, t, y)
  {
    var p :| Walk(graph, p) && p[0] == t && p[|p| - 1] == x;
    var q := p + [y];
    assert forall i :: 0 <= i < |p| ==> q[i] == p[i];
    assert Walk(graph, q);
  }

  /** A walk from `t` inside a set `related` closed under steps from `t` and from its own
      members stays in `related` after its first node. */
  lemma {:induction false} WalkInside(graph: Adjacency, t: string, related: set<string>, p: seq<string>, i: nat)
    requires forall x, y :: (x == t || x in related) && Step(graph, x, y) ==> y in related
    requires Walk(graph, p) && p[0] == t && 1 <= i < |p|
    ensures p[i] in related
  {
    if i > 1 {
      WalkInside(graph, t, related, p, i - 1);
    }
    assert Step(graph, p[i - 1], p[i]);
  }

  /** Every file reached is listed by some key reached before it, or by `t` itself. */
  lemma ReachableFrom(graph: Adjacency, t: string, y: string)
    requires Reachable(graph, t, y)
    ensures Step(graph, t, y) || exists x :: Reachable(graph, t, x) && Step(graph, x, y)
  {
    var p :| Walk(graph, p) && p[0] == t && p[|p| - 1] == y;
    if |p| > 2 {
      var q := p[..|p| - 1];
      assert Walk(graph, q);
      assert Step(graph, p[|p| - 2], y);
    }
  }

  /** Every file listed anywhere in the map. */
  ghost function Listed(graph: Adjacency): set<string> {
    set k, x | k in graph && x in Neighbours(graph, k) :: x
  }

  /** The elements of `s` not in `seen`, in order, repeats kept. */
  function Fresh(s: seq<string>, seen: set<string>): (r: seq<string>)
    ensures forall x :: x in r <==> x in s && x !in seen
    decreases |s|
  {
    if |s| == 0 then []
    else Fresh(s[..|s| - 1], seen) + (if s[|s| - 1] in seen then [] else [s[|s| - 1]])
  }

  lemma {:induction false} FreshNone(s: seq<string>, seen: set<string>)
    requires forall x :: x in s ==> x in seen
    ensures Fresh(s, seen) == []
    decreases |s|
  {
    if |s| > 0 {
      assert forall x :: x in s[..|s| - 1] ==> x in s;
      FreshNone(s[..|s| - 1], seen);
    }
  }

  lemma FreshStep(s: seq<string>, seen: set<string>, j: nat)
    requires j < |s|
    ensures Fresh(s[..j + 1], seen) == Fresh(s[..j], seen) + (if s[j] in seen then [] else [s[j]])
  {
    assert s[..j + 1][..j] == s[..j];
  }

  /** The files of `s`. */
  function Elems(s: seq<string>): (r: set<string>)
    ensures forall x :: x in r <==> x in s
  {
    set x | x in s
  }

  /** The inner loop of `get_all_related_files`: append each listed file not yet
      collected. */
  method EnqueueFresh(queue: seq<string>, allRelated: seq<string>, relatedFiles: set<string>) returns (q: seq<string>)
    ensures q == queue + Fresh(allRelated, relatedFiles)
  {
    q := queue;
    for j := 0 to |allRelated|
      invariant q == queue + Fresh(allRelated[..j], relatedFiles)
    {
      FreshStep(allRelated, relatedFiles, j);
      if allRelated[j] !in relatedFiles {
        q := q + [allRelated[j]];
      }
    }
    assert allRelated[..|allRelated|] == allRelated;
  }

  /** `x` needs no more expanding: it is not a key, or all it lists is collected. */
  ghost predicate Done(graph: Adjacency, related: set<string>, x: string) {
    x in graph ==> forall y :: y in Neighbours(graph, x) ==> y in related
  }

  // ---------------------------------------------------------------------------
  // The service
  // ---------------------------------------------------------------------------

  /** The text put in a bundle for `path`: its stored content, unless that is missing or
      empty. */
  function ContentOr(store: Store, repoId: string, path: string): (r: string)
    ensures ContentKey(repoId, path) in store.texts && store.texts[ContentKey(repoId, path)] != "" ==>
      r == store.texts[ContentKey(repoId, path)]
    ensures !(ContentKey(repoId, path) in store.texts && store.texts[ContentKey(repoId, path)] != "") ==>
      r == "Error: Content for " + path + " not found."
  {
    var key := ContentKey(repoId, path);
    if key in store.texts && store.texts[key] != "" then store.texts[key]
    else "Error: Content for " + path + " not found."
  }

  /** `b` is the bundle of `t`: the target and every file reached from it, each with its
      content or the placeholder. */
  ghost predicate IsBundle(store: Store, repoId: string, graph: Adjacency, t: string, b: map<string, string>) {
    && (forall f :: f in b <==> f == t || Reachable(graph, t, f))
    && (forall f :: f in b ==> b[f] == ContentOr(store, repoId, f))
  }

  class BundleService {
    const repoId: string
    const store: Store

    constructor (repoId: string, store: Store)
      ensures this.repoId == repoId && this.store == store
    {
      this.repoId := repoId;
      this.store := store;
    }

    /** The stored map is there and not empty. */
    predicate HasGraph()
      reads this
    {
      GraphKey(repoId) in store.graphs && |store.graphs[GraphKey(repoId)]| > 0
    }

    /** `get_all_related_files`: fails exactly when the target is not a key; otherwise
        the files reached from the target in one or more steps, which is finite even when
        the map has cycles. A listed file that is not a key is collected but not
        expanded. */
    method GetAllRelatedFiles(dependencyGraph: Adjacency, targetFile: string) returns (r: Result<set<string>>)
      ensures r.Err? <==> targetFile !in dependencyGraph
      ensures r.Ok? ==> forall x :: x in r.value <==> Reachable(dependencyGraph, targetFile, x)
    {
      if targetFile !in dependencyGraph {
        return Err("Target file " + targetFile + " not found in the dependency graph.");
      }
      var relatedFiles: set<string> := {};
      var queue := [targetFile];
      ghost var universe := Listed(dependencyGraph);
      while |queue| > 0
        invariant universe == Listed(dependencyGraph)
        invariant WalkState(dependencyGraph, targetFile, universe, queue, relatedFiles)
        decreases |universe - relatedFiles|, |queue|
      {
        ghost var (q1, r1) := (queue, relatedFiles);
        var currentFile := queue[0];
        queue := queue[1..];
        if currentFile in dependencyGraph {
          var allRelated := Neighbours(dependencyGraph, currentFile);
          queue := EnqueueFresh(queue, allRelated, relatedFiles);
          relatedFiles := relatedFiles + Elems(allRelated);
          Expanded(dependencyGraph, targetFile, universe, q1, r1);
        } else {
          Skipped(dependencyGraph, targetFile, universe, q1, r1);
        }
      }
      CollectedAll(dependencyGraph, targetFile, relatedFiles);
      return Ok(relatedFiles);
    }

    /** `generate_bundle`: fails when the stored map is missing or empty, or the target
        is not one of its keys; otherwise the target and every related file, each with
        its content or the placeholder. */
    method GenerateBundle(targetFile: string) returns (r: Result<map<string, string>>)
      ensures r.Ok? <==> HasGraph() && targetFile in store.graphs[GraphKey(repoId)]
      ensures r.Ok? ==> forall f :: f in r.value <==> f == targetFile || Reachable(store.graphs[GraphKey(repoId)], targetFile, f)
      ensures r.Ok? ==> forall f :: f in r.value ==> r.value[f] == ContentOr(store, repoId, f)
    {
      var key := GraphKey(repoId);
      if !(key in store.graphs && |store.graphs[key]| > 0) {
        return Err("Dependency map for repo '" + repoId + "' not found in Redis.");
      }
      var dependencyGraph := store.graphs[key];
      var related := GetAllRelatedFiles(dependencyGraph, targetFile);
      if related.Err? {
        return Err(related.message);
      }
      var relatedFiles := related.value + {targetFile};
      var bundle: map<string, string> := map[];
      var remaining := relatedFiles;
      while remaining != {}
        invariant remaining <= relatedFiles
        invariant bundle.Keys == relatedFiles - remaining
        invariant forall f :: f in bundle ==> bundle[f] == ContentOr(store, repoId, f)
        decreases |remaining|
      {
        var file :| file in remaining;
        var fileKey := ContentKey(repoId, file);
        var fileContent := if fileKey in store.texts then store.texts[fileKey] else "";
        var text := if fileContent != "" then fileContent else "Error: Content for " + file + " not found.";
        assert text == ContentOr(store, repoId, file);
        bundle := bundle[file := text];
        remaining := remaining - {file};
      }
      return Ok(bundle);
    }

    /** `generate_all_bundles`: fails when the stored map is missing or empty; otherwise
        builds the bundle of every key. */
    method GenerateAllBundles() returns (r: Result<map<string, map<string, string>>>)
      ensures r.Ok? <==> HasGraph()
      ensures r.Ok? ==> r.value.Keys == store.graphs[GraphKey(repoId)].Keys
      ensures r.Ok? ==> forall t :: t in r.value ==>
        forall f :: f in r.value[t] <==> f == t || Reachable(store.graphs[GraphKey(repoId)], t, f)
      ensures r.Ok? ==> forall t, f :: t in r.value && f in r.value[t] ==>
        r.value[t][f] == ContentOr(store, repoId, f)
    {
      var key := GraphKey(repoId);
      if !(key in store.graphs && |store.graphs[key]| > 0) {
        return Err("Dependency map for repo '" + repoId + "' not found in Redis.");
      }
      var dependencyGraph := store.graphs[key];
      var bundles: map<string, map<string, string>> := map[];
      var remaining := dependencyGraph.Keys;
      while remaining != {}
        invariant remaining <= dependencyGraph.Keys
        invariant bundles.Keys == dependencyGraph.Keys - remaining
        invariant forall t :: t in bundles ==> IsBundle(store, repoId, dependencyGraph, t, bundles[t])
        decreases |remaining|
      {
        var targetFile :| targetFile in remaining;
        var bundle := GenerateBundle(targetFile);
        bundles := bundles[targetFile := bundle.value];
        remaining := remaining - {targetFile};
      }
      return Ok(bundles);
    }
  }

  /** Every file a key lists is in `Listed`. */
  lemma ListedHas(graph: Adjacency, k: string, y: string)
    requires k in graph && y in Neighbours(graph, k)
    ensures y in Listed(graph)
  {
  }

  /** Collecting something new inside a finite universe leaves less of it to collect. */
  lemma Shrinks(universe: set<string>, before: set<string>, after: set<string>)
    requires before <= after <= universe && after != before
    ensures |universe - after| < |universe - before|
  {
    var y :| y in after && y !in before;
    var a, b := universe - after, universe - before;
    assert b == a + (b - a) && a * (b - a) == {};
    assert y in b - a;
    assert |b - a| >= 1 by {
      assert {y} <= b - a;
    }
  }

  /** What the walk keeps between two iterations: everything collected lies in the
      universe and is reached from `t`; the queue holds `t` or collected files; and every
      file seen so far is still queued or needs no more expanding. */
  ghost predicate WalkState(graph: Adjacency, t: string, universe: set<string>, queue: seq<string>, related: set<string>) {
    && related <= universe
    && (forall q :: q in queue ==> q == t || q in related)
    && (forall x :: x in related ==> Reachable(graph, t, x))
    && (forall x :: (x == t || x in related) ==> x in queue || Done(graph, related, x))
  }

  /** Expanding the head of the queue, which is a key, keeps the walk's state and either
      collects something new or shortens the queue. */
  lemma Expanded(graph: Adjacency, t: string, universe: set<string>, queue: seq<string>, related: set<string>)
    requires universe == Listed(graph) && WalkState(graph, t, universe, queue, related)
    requires |queue| > 0 && queue[0] in graph
    ensures var n := Neighbours(graph, queue[0]);
      var after := related + Elems(n);
      && WalkState(graph, t, universe, queue[1..] + Fresh(n, related), after)
      && (after != related ==> |universe - after| < |universe - related|)
      && (after == related ==> Fresh(n, related) == [])
  {
    var cur := queue[0];
    var n := Neighbours(graph, cur);
    var after := related + Elems(n);
    var q := queue[1..] + Fresh(n, related);
    ExpandedReach(graph, t, universe, cur, n, related);
    ExpandedQueue(t, queue, q, n, related, after);
    ExpandedDone(graph, t, queue, q, n, related, after);
    if after != related {
      Shrinks(universe, related, after);
    } else {
      assert forall y :: y in n ==> y in Elems(n);
      FreshNone(n, related);
    }
  }

  /** What the head lists lies in the universe and is reached. */
  lemma ExpandedReach(graph: Adjacency, t: string, universe: set<string>, cur: string, n: seq<string>, related: set<string>)
    requires universe == Listed(graph) && cur in graph && n == Neighbours(graph, cur)
    requires cur == t || Reachable(graph, t, cur)
    ensures forall y :: y in n ==> y in universe && Reachable(graph, t, y)
  {
    forall y | y in n ensures y in universe && Reachable(graph, t, y) {
      ListedHas(graph, cur, y);
      if cur == t {
        ReachOne(graph, t, y);
      } else {
        ReachExtend(graph, t, cur, y);
      }
    }
  }

  lemma ExpandedQueue(t: string, queue: seq<string>, q: seq<string>, n: seq<string>, related: set<string>, after: set<string>)
    requires |queue| > 0 && q == queue[1..] + Fresh(n, related) && after == related + Elems(n)
    requires forall x :: x in queue ==> x == t || x in related
    ensures forall x :: x in q ==> x == t || x in after
  {
    assert forall x :: x in queue[1..] ==> x in queue;
  }

  lemma ExpandedDone(graph: Adjacency, t: string, queue: seq<string>, q: seq<string>, n: seq<string>, related: set<string>, after: set<string>)
    requires |queue| > 0 && queue[0] in graph && n == Neighbours(graph, queue[0])
    requires q == queue[1..] + Fresh(n, related) && after == related + Elems(n)
    requires forall x :: (x == t || x in related) ==> x in queue || Done(graph, related, x)
    ensures forall x :: (x == t || x in after) ==> x in q || Done(graph, after, x)
  {
    assert forall x :: x in queue && x != queue[0] ==> x in queue[1..];
    assert Done(graph, after, queue[0]);
    forall x | (x == t || x in related) && Done(graph, related, x) ensures Done(graph, after, x) {
    }
  }

  /** Dropping a head that is not a key keeps the walk's state. */
  lemma Skipped(graph: Adjacency, t: string, universe: set<string>, queue: seq<string>, related: set<string>)
    requires WalkState(graph, t, universe, queue, related)
    requires |queue| > 0 && queue[0] !in graph
    ensures WalkState(graph, t, universe, queue[1..], related)
  {
    assert forall x :: x in queue && x != queue[0] ==> x in queue[1..];
  }

  /** With nothing left to expand, the collected files are exactly those reached. */
  lemma CollectedAll(graph: Adjacency, t: string, related: set<string>)
    requires forall x :: x in related ==> Reachable(graph, t, x)
    requires forall x :: (x == t || x in related) ==> Done(graph, related, x)
    ensures forall x :: x in related <==> Reachable(graph, t, x)
  {
    forall x, y | (x == t || x in related) && Step(graph, x, y) ensures y in related {
      assert Done(graph, related, x);
    }
    forall x | Reachable(graph, t, x) ensures x in related {
      var p :| Walk(graph, p) && p[0] == t && p[|p| - 1] == x;
      WalkInside(graph, t, related, p, |p| - 1);
    }
  }
}
