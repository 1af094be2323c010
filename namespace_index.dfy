/** The namespace index built by `_build_namespace_mapping`, which the analyzer and the
    analysis service both define with the same body: each known file path is cut into
    dotted parts, and several lookup keys made from those parts are mapped back to the
    path. The index is an insertion-ordered dictionary, so a key written twice keeps its
    first position and takes the last path written under it. */
module NamespaceIndex {
  import opened Strings
  import opened Wrappers
  import opened OrderedDict

  type Index = Dict<string, string>

  /** `path.replace("/", ".").split(".")` */
  function Parts(path: string): (r: seq<string>)
    ensures |r| >= 1
  {
    Split(ReplaceChar(path, '/', '.'), '.')
  }

  /** `".".join(parts[i:])` for every `i < k`. */
  function SuffixKeys(parts: seq<string>, k: nat): (r: seq<string>)
    requires k <= |parts|
    ensures |r| == k
  {
    seq(k, i requires 0 <= i < k => Join(parts[i..], '.'))
  }

  /** The keys written for one path, in the order they are written: the file name
      `parts[-2]`, the full namespace `".".join(parts[:-1])`, then every suffix
      `".".join(parts[i:])` for `i < len(parts) - 1`. `None` where `parts[-2]` raises
      `IndexError`, that is when there is only one part. */
  function PathKeys(path: string): Option<seq<string>> {
    var parts := Parts(path);
    var n := |parts|;
    if n < 2 then None
    else Some([parts[n - 2], Join(parts[..n - 1], '.')] + SuffixKeys(parts, n - 1))
  }

  /** `path` writes key `k` into the index. */
  predicate Generates(path: string, k: string) {
    PathKeys(path).Some? && k in PathKeys(path).value
  }

  /** Writing every key of `keys`, in order, to the same value. */
  function PutAll(d: Index, keys: seq<string>, v: string): Index
    decreases |keys|
  {
    if |keys| == 0 then d else PutAll(Put(d, keys[0], v), keys[1..], v)
  }

  /** The index after processing `files` on top of `d`; `None` once a path raises. */
  function IndexInto(d: Index, files: seq<string>): Option<Index>
    decreases |files|
  {
    if |files| == 0 then Some(d)
    else
      match PathKeys(files[0])
      case None => None
      case Some(keys) => IndexInto(PutAll(d, keys, files[0]), files[1..])
  }

  /** What `_build_namespace_mapping` returns for `valid_files`, `None` where it raises. */
  function BuildIndex(files: seq<string>): Option<Index> {
    IndexInto([], files)
  }

  /** `_build_namespace_mapping`: the outer loop over the files, the two direct keys, and
      the inner loop over the suffixes. */
  method BuildNamespaceMapping(validFiles: seq<string>) returns (r: Option<Index>)
    ensures r == BuildIndex(validFiles)
  {
    var namespaceMap: Index := [];
    for k := 0 to |validFiles|
      invariant IndexInto(namespaceMap, validFiles[k..]) == BuildIndex(validFiles)
    {
      var filePath := validFiles[k];
      assert validFiles[k..][1..] == validFiles[k + 1..];
      var parts := Parts(filePath);
      if |parts| < 2 {
        return None;
      }
      var keys := PathKeys(filePath).value;
      var m0 := namespaceMap;
      var fileName := parts[|parts| - 2];
      var namespace := Join(parts[..|parts| - 1], '.');
      namespaceMap := Put(namespaceMap, fileName, filePath);
      namespaceMap := Put(namespaceMap, namespace, filePath);
      assert keys[2..] == SuffixKeys(parts, |parts| - 1);
      for i := 0 to |parts| - 1
        invariant PutAll(namespaceMap, keys[i + 2..], filePath) == PutAll(m0, keys, filePath)
      {
        assert keys[i + 2..][1..] == keys[i + 3..];
        var simplified := Join(parts[i..], '.');
        namespaceMap := Put(namespaceMap, simplified, filePath);
      }
      assert keys[|parts| + 1..] == [];
    }
    assert validFiles[|validFiles|..] == [];
    r := Some(namespaceMap);
  }

  // ---------------------------------------------------------------------------
  // When construction fails
  // ---------------------------------------------------------------------------

  /** A path yields keys unless it has neither `/` nor `.`. */
  lemma PathKeysNone(path: string)
    ensures PathKeys(path).None? <==> '/' !in path && '.' !in path
  {
    var s := ReplaceChar(path, '/', '.');
    SplitSingle(s, '.');
    if '.' in s {
      var k :| 0 <= k < |s| && s[k] == '.';
      assert path[k] == '/' || path[k] == '.';
    }
    if '/' in path || '.' in path {
      var k :| 0 <= k < |path| && (path[k] == '/' || path[k] == '.');
      assert s[k] == '.';
    }
  }

  /** Construction raises exactly when some valid path has neither `/` nor `.`. */
  lemma {:induction false} BuildFails(d: Index, files: seq<string>)
    ensures IndexInto(d, files).None? <==> exists f :: f in files && '/' !in f && '.' !in f
    decreases |files|
  {
    if |files| > 0 {
      PathKeysNone(files[0]);
      if PathKeys(files[0]).Some? {
        BuildFails(PutAll(d, PathKeys(files[0]).value, files[0]), files[1..]);
        assert forall f :: f in files <==> f == files[0] || f in files[1..];
      }
    }
  }

  // ---------------------------------------------------------------------------
  // Values
  // ---------------------------------------------------------------------------

  lemma {:induction false} PutAllValues(d: Index, keys: seq<string>, v: string)
    ensures Values(PutAll(d, keys, v)) <= Values(d) + {v}
    decreases |keys|
  {
    if |keys| > 0 {
      PutValues(d, keys[0], v);
      PutAllValues(Put(d, keys[0], v), keys[1..], v);
    }
  }

  lemma {:induction false} IndexIntoValues(d: Index, files: seq<string>)
    requires IndexInto(d, files).Some?
    ensures forall p :: p in Values(IndexInto(d, files).value) ==> p in Values(d) || p in files
    decreases |files|
  {
    if |files| > 0 {
      var keys := PathKeys(files[0]).value;
      PutAllValues(d, keys, files[0]);
      IndexIntoValues(PutAll(d, keys, files[0]), files[1..]);
    }
  }

  /** Every path in the index is one of the valid files, and one that has a `/` or a `.`
      (so never `""` nor `"EXTERNAL"`). */
  lemma IndexValues(files: seq<string>)
    requires BuildIndex(files).Some?
    ensures forall p :: p in Values(BuildIndex(files).value) ==> p in files && ('/' in p || '.' in p)
  {
    IndexIntoValues([], files);
    BuildFails([], files);
  }

  // ---------------------------------------------------------------------------
  // Lookups: last write wins
  // ---------------------------------------------------------------------------

  /** The last path of `files` that writes key `k`. */
  function LastOwner(files: seq<string>, k: string): Option<string>
    decreases |files|
  {
    if |files| == 0 then None
    else
      var later := LastOwner(files[1..], k);
      if later.Some? then later
      else if Generates(files[0], k) then Some(files[0])
      else None
  }

  lemma {:induction false} PutAllGet(d: Index, keys: seq<string>, v: string, k: string)
    ensures Get(PutAll(d, keys, v), k) == if k in keys then Some(v) else Get(d, k)
    decreases |keys|
  {
    if |keys| > 0 {
      PutGet(d, keys[0], v, k);
      PutAllGet(Put(d, keys[0], v), keys[1..], v, k);
      assert k in keys <==> k == keys[0] || k in keys[1..];
    }
  }

  lemma {:induction false} IndexIntoGet(d: Index, files: seq<string>, k: string)
    requires IndexInto(d, files).Some?
    ensures Get(IndexInto(d, files).value, k) == if LastOwner(files, k).Some? then LastOwner(files, k) else Get(d, k)
    decreases |files|
  {
    if |files| > 0 {
      var keys := PathKeys(files[0]).value;
      PutAllGet(d, keys, files[0], k);
      IndexIntoGet(PutAll(d, keys, files[0]), files[1..], k);
    }
  }

  /** A key maps to the last valid path that writes it; a key no path writes is absent. */
  lemma IndexGet(files: seq<string>, k: string)
    requires BuildIndex(files).Some?
    ensures Get(BuildIndex(files).value, k) == LastOwner(files, k)
  {
    IndexIntoGet([], files, k);
  }

  // ---------------------------------------------------------------------------
  // Key order: first insertion wins
  // ---------------------------------------------------------------------------

  /** Every key each path writes, in the order of writing. */
  function AllKeys(files: seq<string>): seq<string>
    requires forall f :: f in files ==> PathKeys(f).Some?
    decreases |files|
  {
    if |files| == 0 then [] else PathKeys(files[0]).value + AllKeys(files[1..])
  }

  lemma {:induction false} PutAllKeys(d: Index, keys: seq<string>, v: string)
    ensures Keys(PutAll(d, keys, v)) == AddNew(Keys(d), keys)
    decreases |keys|
  {
    if |keys| > 0 {
      PutKeys(d, keys[0], v);
      PutAllKeys(Put(d, keys[0], v), keys[1..], v);
    }
  }

  lemma {:induction false} IndexIntoKeys(d: Index, files: seq<string>)
    requires IndexInto(d, files).Some?
    ensures forall f :: f in files ==> PathKeys(f).Some?
    ensures Keys(IndexInto(d, files).value) == AddNew(Keys(d), AllKeys(files))
    decreases |files|
  {
    if |files| > 0 {
      var keys := PathKeys(files[0]).value;
      PutAllKeys(d, keys, files[0]);
      IndexIntoKeys(PutAll(d, keys, files[0]), files[1..]);
      assert forall f :: f in files <==> f == files[0] || f in files[1..];
      AddNewAppend(Keys(d), keys, AllKeys(files[1..]));
    } else {
      assert AddNew(Keys(d), []) == Keys(d);
    }
  }

  lemma {:induction false} PutAllDistinct(d: Index, keys: seq<string>, v: string)
    requires DistinctKeys(d)
    ensures DistinctKeys(PutAll(d, keys, v))
    decreases |keys|
  {
    if |keys| > 0 {
      PutDistinct(d, keys[0], v);
      PutAllDistinct(Put(d, keys[0], v), keys[1..], v);
    }
  }

  lemma {:induction false} IndexIntoDistinct(d: Index, files: seq<string>)
    requires DistinctKeys(d) && IndexInto(d, files).Some?
    ensures DistinctKeys(IndexInto(d, files).value)
    decreases |files|
  {
    if |files| > 0 {
      var keys := PathKeys(files[0]).value;
      PutAllDistinct(d, keys, files[0]);
      IndexIntoDistinct(PutAll(d, keys, files[0]), files[1..]);
    }
  }

  /** The keys come in the order in which they were first written, each once. */
  lemma IndexKeys(files: seq<string>)
    requires BuildIndex(files).Some?
    ensures forall f :: f in files ==> PathKeys(f).Some?
    ensures Keys(BuildIndex(files).value) == AddNew([], AllKeys(files))
    ensures DistinctKeys(BuildIndex(files).value)
  {
    IndexIntoKeys([], files);
    IndexIntoDistinct([], files);
  }

  /** `LastOwner` is the path at the largest index that writes the key. */
  lemma {:induction false} LastOwnerIs(files: seq<string>, k: string, i: nat)
    requires i < |files| && Generates(files[i], k)
    requires forall j :: i < j < |files| ==> !Generates(files[j], k)
    ensures LastOwner(files, k) == Some(files[i])
    decreases |files|
  {
    if i > 0 {
      LastOwnerIs(files[1..], k, i - 1);
    } else {
      LastOwnerNone(files[1..], k);
    }
  }

  /** No path writes the key exactly when it has no owner. */
  lemma {:induction false} LastOwnerNone(files: seq<string>, k: string)
    ensures LastOwner(files, k).None? <==> forall j :: 0 <= j < |files| ==> !Generates(files[j], k)
    decreases |files|
  {
    if |files| > 0 {
      LastOwnerNone(files[1..], k);
      assert forall j :: 1 <= j < |files| ==> files[j] == files[1..][j - 1];
    }
  }

  // ---------------------------------------------------------------------------
  // Examples
  // ---------------------------------------------------------------------------

  lemma ReplaceAppend(a: string, b: string)
    ensures ReplaceChar(a + b, '/', '.') == ReplaceChar(a, '/', '.') + ReplaceChar(b, '/', '.')
  {
  }

  lemma ReplaceNone(a: string)
    requires '/' !in a
    ensures ReplaceChar(a, '/', '.') == a
  {
  }

  lemma DottedPath(dir: string, name: string, ext: string)
    requires '/' !in dir && '/' !in name && '/' !in ext
    ensures ReplaceChar(dir + "/" + name + "." + ext, '/', '.') == dir + "." + name + "." + ext
  {
    ReplaceAppend(dir + "/" + name, "." + ext);
    ReplaceAppend(dir + "/", name);
    ReplaceAppend(dir, "/");
    ReplaceNone(dir);
    ReplaceNone(name);
    ReplaceNone("." + ext);
    assert ReplaceChar("/", '/', '.') == ".";
  }

  lemma Join2(a: string, b: string)
    ensures Join([a, b], '.') == a + "." + b
  {
    assert [a, b][1..] == [b];
  }

  lemma Join3(a: string, b: string, c: string)
    ensures Join([a, b, c], '.') == a + "." + b + "." + c
  {
    assert [a, b, c][1..] == [b, c];
    Join2(b, c);
  }

  lemma ThreeParts(path: string, parts: seq<string>)
    requires Parts(path) == parts && |parts| == 3
    ensures PathKeys(path) == Some([parts[1], Join(parts[..2], '.'), Join(parts, '.'), Join(parts[1..], '.')])
  {
    var sk := SuffixKeys(parts, 2);
    assert parts[0..] == parts;
    assert sk == [Join(parts, '.'), Join(parts[1..], '.')];
    assert PathKeys(path) == Some([parts[1], Join(parts[..2], '.')] + sk);
    assert [parts[1], Join(parts[..2], '.')] + sk == [parts[1], Join(parts[..2], '.'), Join(parts, '.'), Join(parts[1..], '.')];
  }

  lemma PartsOfPath(dir: string, name: string, ext: string)
    requires '/' !in dir && '.' !in dir && '/' !in name && '.' !in name && '/' !in ext && '.' !in ext
    ensures Parts(dir + "/" + name + "." + ext) == [dir, name, ext]
  {
    DottedPath(dir, name, ext);
    Join3(dir, name, ext);
    SplitJoin([dir, name, ext], '.');
  }

  /** The keys of a path `dir/name.ext` whose three pieces hold neither `/` nor `.`: the
      suffix keys keep the extension. */
  lemma KeysOfPath(dir: string, name: string, ext: string)
    requires '/' !in dir && '.' !in dir && '/' !in name && '.' !in name && '/' !in ext && '.' !in ext
    ensures PathKeys(dir + "/" + name + "." + ext)
         == Some([name, dir + "." + name, dir + "." + name + "." + ext, name + "." + ext])
  {
    var parts := [dir, name, ext];
    PartsOfPath(dir, name, ext);
    ThreeParts(dir + "/" + name + "." + ext, parts);
    assert parts[..2] == [dir, name] && parts[1..] == [name, ext];
    Join2(dir, name);
    Join2(name, ext);
    Join3(dir, name, ext);
  }

  /** A single path `dir/name.ext` gives its four keys, in order, all mapping to it. */
  lemma IndexOfOne(dir: string, name: string, ext: string)
    requires '/' !in dir && '.' !in dir && '/' !in name && '.' !in name && '/' !in ext && '.' !in ext
    requires dir != name
    ensures var p := dir + "/" + name + "." + ext;
      BuildIndex([p]) == Some([(name, p), (dir + "." + name, p), (dir + "." + name + "." + ext, p), (name + "." + ext, p)])
  {
    var p := dir + "/" + name + "." + ext;
    KeysOfPath(dir, name, ext);
    assert [p][1..] == [];
    var k1, k2, k3, k4 := name, dir + "." + name, dir + "." + name + "." + ext, name + "." + ext;
    assert k1 != k2 && k1 != k3 && k1 != k4 && k2 != k3 by {
      assert |k1| < |k2| < |k3| && |k1| < |k4|;
    }
    FirstDot(dir, name);
    FirstDot(name, ext);
    assert k2[..|dir|] == dir && k4[..|name|] == name;
    assert k3 != k4 by {
      assert |k4| < |k3|;
    }
    SuffixPuts(p, k1, k2, k3, k4);
    assert IndexInto([], [p]) == IndexInto(PutAll([], [k1, k2, k3, k4], p), []);
  }

  /** The first `.` of `a + "." + b` is the one after `a`, when `a` has none. */
  lemma FirstDot(a: string, b: string)
    requires '.' !in a
    ensures IndexOf(a + "." + b, '.') == |a|
  {
    var k := a + "." + b;
    assert k[|a|] == '.';
    assert forall j :: 0 <= j < |a| ==> k[j] == a[j];
  }

  lemma SuffixPuts(p: string, k1: string, k2: string, k3: string, k4: string)
    requires k1 != k2 && k1 != k3 && k1 != k4 && k2 != k3 && k2 != k4 && k3 != k4
    ensures PutAll([], [k1, k2, k3, k4], p) == [(k1, p), (k2, p), (k3, p), (k4, p)]
  {
    var ks := [k1, k2, k3, k4];
    assert ks[1..] == [k2, k3, k4] && ks[1..][1..] == [k3, k4] && ks[1..][1..][1..] == [k4];
    var d1: Index := [(k1, p)];
    var d2 := d1 + [(k2, p)];
    var d3 := d2 + [(k3, p)];
    PutNew([], k1, p);
    PutNew(d1, k2, p);
    PutNew(d2, k3, p);
    PutNew(d3, k4, p);
    assert PutAll([], ks, p) == PutAll(d1, [k2, k3, k4], p);
    assert PutAll(d1, [k2, k3, k4], p) == PutAll(d2, [k3, k4], p);
    assert PutAll(d2, [k3, k4], p) == PutAll(d3, [k4], p);
    assert PutAll(d3, [k4], p) == d3 + [(k4, p)];
  }

  /** Dotted keys with different heads differ. */
  lemma DotKeysDiffer(a: string, b: string, c: string, d: string)
    requires '.' !in a && '.' !in c && a != c
    ensures a + "." + b != c + "." + d
  {
    FirstDot(a, b);
    FirstDot(c, d);
    assert (a + "." + b)[..|a|] == a && (c + "." + d)[..|c|] == c;
  }

  /** Two paths `dir1/name.ext` and `dir2/name.ext` both write `name`: it keeps the first
      position, from the first path, and maps to the second path; `dir1.name`, which only
      the first path writes, still maps to the first. */
  lemma Collision(dir1: string, dir2: string, name: string, ext: string)
    requires '/' !in dir1 && '.' !in dir1 && '/' !in dir2 && '.' !in dir2
    requires '/' !in name && '.' !in name && '/' !in ext && '.' !in ext
    requires dir1 != dir2 && dir1 != name
    ensures var p1, p2 := dir1 + "/" + name + "." + ext, dir2 + "/" + name + "." + ext;
      && BuildIndex([p1, p2]).Some?
      && |BuildIndex([p1, p2]).value| > 0 && Keys(BuildIndex([p1, p2]).value)[0] == name
      && Get(BuildIndex([p1, p2]).value, name) == Some(p2)
      && Get(BuildIndex([p1, p2]).value, dir1 + "." + name) == Some(p1)
  {
    var p1, p2 := dir1 + "/" + name + "." + ext, dir2 + "/" + name + "." + ext;
    KeysOfPath(dir1, name, ext);
    KeysOfPath(dir2, name, ext);
    var k := dir1 + "." + name;
    SiblingKeys(dir1, dir2, name, ext);
    CollisionOf(p1, p2, name, k, PathKeys(p1).value, PathKeys(p2).value);
  }

  lemma SiblingKeys(dir1: string, dir2: string, name: string, ext: string)
    requires '.' !in dir1 && '.' !in dir2 && '.' !in name && dir1 != dir2 && dir1 != name
    ensures dir1 + "." + name !in [name, dir2 + "." + name, dir2 + "." + name + "." + ext, name + "." + ext]
  {
    var k := dir1 + "." + name;
    assert |name| < |k|;
    DotKeysDiffer(dir1, name, dir2, name);
    DotKeysDiffer(dir1, name, dir2, name + "." + ext);
    DotKeysDiffer(dir1, name, name, ext);
  }

  lemma CollisionOf(p1: string, p2: string, name: string, k: string, ks1: seq<string>, ks2: seq<string>)
    requires PathKeys(p1) == Some(ks1) && PathKeys(p2) == Some(ks2)
    requires |ks1| > 0 && ks1[0] == name && name in ks2 && k in ks1 && k !in ks2
    ensures && BuildIndex([p1, p2]).Some?
            && |BuildIndex([p1, p2]).value| > 0 && Keys(BuildIndex([p1, p2]).value)[0] == name
            && Get(BuildIndex([p1, p2]).value, name) == Some(p2)
            && Get(BuildIndex([p1, p2]).value, k) == Some(p1)
  {
    TwoBuild(p1, p2, ks1, ks2);
    TwoFirstKey(p1, p2, name, ks1, ks2);
    var files := [p1, p2];
    IndexGet(files, name);
    LastOwnerIs(files, name, 1);
    IndexGet(files, k);
    LastOwnerIs(files, k, 0);
  }

  lemma TwoBuild(p1: string, p2: string, ks1: seq<string>, ks2: seq<string>)
    requires PathKeys(p1) == Some(ks1) && PathKeys(p2) == Some(ks2)
    ensures BuildIndex([p1, p2]) == Some(PutAll(PutAll([], ks1, p1), ks2, p2))
  {
    assert [p1, p2][1..] == [p2] && [p2][1..] == [];
    var d1 := PutAll([], ks1, p1);
    assert IndexInto(d1, [p2]) == Some(PutAll(d1, ks2, p2));
  }

  lemma TwoFirstKey(p1: string, p2: string, name: string, ks1: seq<string>, ks2: seq<string>)
    requires PathKeys(p1) == Some(ks1) && PathKeys(p2) == Some(ks2)
    requires BuildIndex([p1, p2]).Some?
    requires |ks1| > 0 && ks1[0] == name
    ensures |BuildIndex([p1, p2]).value| > 0 && Keys(BuildIndex([p1, p2]).value)[0] == name
  {
    var files := [p1, p2];
    IndexKeys(files);
    assert files[1..] == [p2] && [p2][1..] == [];
    assert AllKeys([p2]) == ks2 + AllKeys([]);
    var ks := AllKeys(files);
    assert ks == ks1 + AllKeys([p2]);
    assert ks[0] == name;
    var none: seq<string> := [];
    assert none + [ks[0]] == [name];
    assert AddNew(none, ks) == AddNew([name], ks[1..]);
    AddNewKeeps([name], ks[1..]);
  }
}
