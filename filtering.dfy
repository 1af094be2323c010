/** `filter_source_files` of `src/utils/filtering.py`: keep the files and the valid paths
    whose name ends with one of the allowed extensions. */
module Filtering {
  import opened Wrappers
  import opened Strings
  import opened OrderedDict

  /** `any(path.endswith(ext) for ext in extensions)` */
  predicate Allowed(path: string, extensions: seq<string>) {
    exists ext :: ext in extensions && EndsWith(path, ext)
  }

  /** The dictionary comprehension: the entries of allowed paths, in order. */
  function FilterFiles(files: Dict<string, string>, extensions: seq<string>): Dict<string, string>
    decreases |files|
  {
    if |files| == 0 then []
    else
      var last := files[|files| - 1];
      FilterFiles(files[..|files| - 1], extensions) + (if Allowed(last.0, extensions) then [last] else [])
  }

  /** The list comprehension: the allowed paths, in order, repeats kept. */
  function FilterPaths(validFiles: seq<string>, extensions: seq<string>): seq<string>
    decreases |validFiles|
  {
    if |validFiles| == 0 then []
    else
      var last := validFiles[|validFiles| - 1];
      FilterPaths(validFiles[..|validFiles| - 1], extensions) + (if Allowed(last, extensions) then [last] else [])
  }

  /** `filter_source_files` */
  function FilterSourceFiles(files: Dict<string, string>, validFiles: seq<string>, extensions: seq<string>): (Dict<string, string>, seq<string>) {
    (FilterFiles(files, extensions), FilterPaths(validFiles, extensions))
  }

  /** An entry is kept exactly when it is an entry of `files` whose path is allowed, with
      the same content. */
  lemma {:induction false} FilterFilesIn(files: Dict<string, string>, extensions: seq<string>, e: (string, string))
    ensures e in FilterFiles(files, extensions) <==> e in files && Allowed(e.0, extensions)
    decreases |files|
  {
    if |files| > 0 {
      var n := |files| - 1;
      FilterFilesIn(files[..n], extensions, e);
      assert files == files[..n] + [files[n]];
    }
  }

  /** A path is kept exactly when it is a valid path that is allowed. */
  lemma {:induction false} FilterPathsIn(validFiles: seq<string>, extensions: seq<string>, x: string)
    ensures x in FilterPaths(validFiles, extensions) <==> x in validFiles && Allowed(x, extensions)
    decreases |validFiles|
  {
    if |validFiles| > 0 {
      var n := |validFiles| - 1;
      FilterPathsIn(validFiles[..n], extensions, x);
      assert validFiles == validFiles[..n] + [validFiles[n]];
    }
  }

  /** Filtering goes element by element, so order is kept and a repeated path stays
      repeated. */
  lemma {:induction false} FilterPathsAppend(a: seq<string>, b: seq<string>, extensions: seq<string>)
    ensures FilterPaths(a + b, extensions) == FilterPaths(a, extensions) + FilterPaths(b, extensions)
    decreases |b|
  {
    if |b| == 0 {
      assert a + b == a;
    } else {
      var n := |b| - 1;
      assert (a + b)[..|a + b| - 1] == a + b[..n];
      assert (a + b)[|a + b| - 1] == b[n];
      FilterPathsAppend(a, b[..n], extensions);
    }
  }

  /** The entries kept are a sub-sequence of the entries, in the same manner. */
  lemma {:induction false} FilterFilesAppend(a: Dict<string, string>, b: Dict<string, string>, extensions: seq<string>)
    ensures FilterFiles(a + b, extensions) == FilterFiles(a, extensions) + FilterFiles(b, extensions)
    decreases |b|
  {
    if |b| == 0 {
      assert a + b == a;
    } else {
      var n := |b| - 1;
      assert (a + b)[..|a + b| - 1] == a + b[..n];
      assert (a + b)[|a + b| - 1] == b[n];
      FilterFilesAppend(a, b[..n], extensions);
    }
  }

  /** One path on its own is kept exactly when it is allowed. */
  lemma FilterPathsOne(x: string, extensions: seq<string>)
    ensures FilterPaths([x], extensions) == if Allowed(x, extensions) then [x] else []
  {
    assert [x][..0] == [];
  }

  /** A path is a key of the filtered files exactly when it is a key of `files` and
      allowed. */
  lemma FilterFilesKeys(files: Dict<string, string>, extensions: seq<string>, k: string)
    ensures k in Keys(FilterFiles(files, extensions)) <==> k in Keys(files) && Allowed(k, extensions)
  {
    var r := FilterFiles(files, extensions);
    if k in Keys(r) {
      var i :| 0 <= i < |r| && Keys(r)[i] == k;
      FilterFilesIn(files, extensions, r[i]);
      var j :| 0 <= j < |files| && files[j] == r[i];
      assert Keys(files)[j] == k;
    }
    if k in Keys(files) && Allowed(k, extensions) {
      var j :| 0 <= j < |files| && Keys(files)[j] == k;
      FilterFilesIn(files, extensions, files[j]);
      var i :| 0 <= i < |r| && r[i] == files[j];
      assert Keys(r)[i] == k;
    }
  }

  /** The filtered files form a sub-map: every kept path reads the same content, and an
      other path reads nothing. */
  lemma {:induction false} FilterFilesGet(files: Dict<string, string>, extensions: seq<string>, k: string)
    ensures Get(FilterFiles(files, extensions), k) == if Allowed(k, extensions) then Get(files, k) else None
    decreases |files|
  {
    if |files| == 0 {
    } else {
      var n := |files| - 1;
      var front := files[..n];
      var last := files[n];
      var r := FilterFiles(front, extensions);
      assert files == front + [last];
      FilterFilesGet(front, extensions, k);
      FilterFilesKeys(front, extensions, k);
      GetAppend(front, last, k);
      if Allowed(last.0, extensions) {
        assert FilterFiles(files, extensions) == r + [last];
        GetAppend(r, last, k);
      } else {
        assert FilterFiles(files, extensions) == r;
        assert Allowed(k, extensions) ==> k != last.0;
      }
    }
  }

  /** Filtering twice with the same extensions is filtering once. */
  lemma {:induction false} FilterIdempotent(files: Dict<string, string>, validFiles: seq<string>, extensions: seq<string>)
    ensures var (f, v) := FilterSourceFiles(files, validFiles, extensions);
      FilterSourceFiles(f, v, extensions) == (f, v)
  {
    FilterFilesTwice(files, extensions);
    FilterPathsTwice(validFiles, extensions);
  }

  lemma {:induction false} FilterFilesTwice(files: Dict<string, string>, extensions: seq<string>)
    ensures FilterFiles(FilterFiles(files, extensions), extensions) == FilterFiles(files, extensions)
    decreases |files|
  {
    if |files| > 0 {
      var n := |files| - 1;
      var front := files[..n];
      FilterFilesTwice(front, extensions);
      var kept := if Allowed(files[n].0, extensions) then [files[n]] else [];
      FilterFilesAppend(FilterFiles(front, extensions), kept, extensions);
      if Allowed(files[n].0, extensions) {
        assert kept[..0] == [];
      }
    }
  }

  lemma {:induction false} FilterPathsTwice(validFiles: seq<string>, extensions: seq<string>)
    ensures FilterPaths(FilterPaths(validFiles, extensions), extensions) == FilterPaths(validFiles, extensions)
    decreases |validFiles|
  {
    if |validFiles| > 0 {
      var n := |validFiles| - 1;
      var front := validFiles[..n];
      FilterPathsTwice(front, extensions);
      var kept := if Allowed(validFiles[n], extensions) then [validFiles[n]] else [];
      FilterPathsAppend(FilterPaths(front, extensions), kept, extensions);
      if Allowed(validFiles[n], extensions) {
        FilterPathsOne(validFiles[n], extensions);
      }
    }
  }

  /** With no extensions nothing is kept. */
  lemma FilterNone(files: Dict<string, string>, validFiles: seq<string>)
    ensures FilterSourceFiles(files, validFiles, []) == ([], [])
  {
    FilterFilesNone(files);
    FilterPathsNone(validFiles);
  }

  lemma {:induction false} FilterFilesNone(files: Dict<string, string>)
    ensures FilterFiles(files, []) == []
    decreases |files|
  {
    if |files| > 0 {
      FilterFilesNone(files[..|files| - 1]);
    }
  }

  lemma {:induction false} FilterPathsNone(validFiles: seq<string>)
    ensures FilterPaths(validFiles, []) == []
    decreases |validFiles|
  {
    if |validFiles| > 0 {
      FilterPathsNone(validFiles[..|validFiles| - 1]);
    }
  }

  /** Distinct keys stay distinct. */
  lemma {:induction false} FilterFilesDistinct(files: Dict<string, string>, extensions: seq<string>)
    requires DistinctKeys(files)
    ensures DistinctKeys(FilterFiles(files, extensions))
    decreases |files|
  {
    if |files| > 0 {
      var n := |files| - 1;
      var front := files[..n];
      assert DistinctKeys(front);
      FilterFilesDistinct(front, extensions);
      var r := FilterFiles(front, extensions);
      if Allowed(files[n].0, extensions) {
        forall i | 0 <= i < |r| ensures r[i].0 != files[n].0 {
          FilterFilesIn(front, extensions, r[i]);
          var j :| 0 <= j < n && front[j] == r[i];
        }
      }
    }
  }
}
