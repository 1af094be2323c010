/** Python's `dict` where iteration order matters: a sequence of (key, value) entries.
    Assigning to a present key overwrites its value in place, keeping the key's position
    from its first insertion; assigning to a new key appends it. */
module OrderedDict {
  import opened Wrappers

  type Dict<K, V> = seq<(K, V)>

  /** `list(d.keys())` */
  function Keys<K, V>(d: Dict<K, V>): (ks: seq<K>)
    ensures |ks| == |d|
    ensures forall i :: 0 <= i < |d| ==> ks[i] == d[i].0
  {
    seq(|d|, i requires 0 <= i < |d| => d[i].0)
  }

  /** The set of values of `d`. */
  function Values<K, V>(d: Dict<K, V>): set<V> {
    set i | 0 <= i < |d| :: d[i].1
  }

  /** No key has two entries (true of every dictionary). */
  predicate DistinctKeys<K(==), V>(d: Dict<K, V>) {
    forall i, j :: 0 <= i < j < |d| ==> d[i].0 != d[j].0
  }

  /** `d.get(k)` */
  function Get<K(==), V>(d: Dict<K, V>, k: K): (r: Option<V>)
    ensures r.None? <==> k !in Keys(d)
    ensures r.Some? ==> r.value in Values(d)
    decreases |d|
  {
    if |d| == 0 then None
    else if d[0].0 == k then Some(d[0].1)
    else
      var r := Get(d[1..], k);
      assert Keys(d) == [d[0].0] + Keys(d[1..]);
      assert Values(d[1..]) <= Values(d) by {
        forall v | v in Values(d[1..]) ensures v in Values(d) {
          var i :| 0 <= i < |d[1..]| && d[1..][i].1 == v;
          assert d[i + 1].1 == v;
        }
      }
      r
  }

  /** In a dictionary, the value stored at a key's entry is what `Get` finds. */
  lemma {:induction false} GetAt<K, V>(d: Dict<K, V>, i: nat)
    requires DistinctKeys(d) && i < |d|
    ensures Get(d, d[i].0) == Some(d[i].1)
    decreases i
  {
    if i > 0 {
      assert DistinctKeys(d[1..]);
      assert d[1..][i - 1] == d[i];
      GetAt(d[1..], i - 1);
    }
  }

  lemma KeysCons<K, V>(x: (K, V), d: Dict<K, V>)
    ensures Keys([x] + d) == [x.0] + Keys(d)
  {
  }

  lemma ValuesCons<K, V>(x: (K, V), d: Dict<K, V>)
    ensures Values([x] + d) == {x.1} + Values(d)
  {
    var e := [x] + d;
    forall w | w in Values(e) ensures w in {x.1} + Values(d) {
      var i :| 0 <= i < |e| && e[i].1 == w;
      if i > 0 { assert d[i - 1].1 == w; }
    }
    forall w | w in Values(d) ensures w in Values(e) {
      var i :| 0 <= i < |d| && d[i].1 == w;
      assert e[i + 1].1 == w;
    }
    assert e[0].1 == x.1;
  }

  lemma GetCons<K, V>(x: (K, V), d: Dict<K, V>)
    ensures forall k :: Get([x] + d, k) == if x.0 == k then Some(x.1) else Get(d, k)
  {
    assert ([x] + d)[1..] == d;
  }

  lemma DistinctCons<K, V>(x: (K, V), d: Dict<K, V>)
    ensures DistinctKeys([x] + d) <==> DistinctKeys(d) && x.0 !in Keys(d)
  {
    var e := [x] + d;
    if DistinctKeys(d) && x.0 !in Keys(d) {
      forall i, j | 0 <= i < j < |e| ensures e[i].0 != e[j].0 {
        if i == 0 { assert e[j].0 == Keys(d)[j - 1]; }
        else { assert e[i] == d[i - 1] && e[j] == d[j - 1]; }
      }
    }
    if DistinctKeys(e) {
      forall i, j | 0 <= i < j < |d| ensures d[i].0 != d[j].0 {
        assert e[i + 1] == d[i] && e[j + 1] == d[j];
      }
      assert e[0] == x;
      forall j | 0 <= j < |d| ensures Keys(d)[j] != x.0 {
        assert e[j + 1].0 == d[j].0;
      }
    }
  }

  /** `seen` followed by the elements of `ks` not seen before, in order of first occurrence. */
  function AddNew<K(==)>(seen: seq<K>, ks: seq<K>): seq<K>
    decreases |ks|
  {
    if |ks| == 0 then seen
    else AddNew(if ks[0] in seen then seen else seen + [ks[0]], ks[1..])
  }

  lemma {:induction false} AddNewAppend<K>(seen: seq<K>, a: seq<K>, b: seq<K>)
    ensures AddNew(seen, a + b) == AddNew(AddNew(seen, a), b)
    decreases |a|
  {
    if |a| > 0 {
      assert (a + b)[0] == a[0] && (a + b)[1..] == a[1..] + b;
      AddNewAppend(if a[0] in seen then seen else seen + [a[0]], a[1..], b);
    } else {
      assert a + b == b;
    }
  }

  lemma AddNewKeeps<K>(seen: seq<K>, ks: seq<K>)
    ensures |AddNew(seen, ks)| >= |seen| && AddNew(seen, ks)[..|seen|] == seen
    decreases |ks|
  {
    if |ks| > 0 {
      var next := if ks[0] in seen then seen else seen + [ks[0]];
      AddNewKeeps(next, ks[1..]);
      assert next[..|seen|] == seen;
    }
  }

  /** No element occurs twice. */
  predicate Distinct<K(==)>(s: seq<K>) {
    forall i, j :: 0 <= i < j < |s| ==> s[i] != s[j]
  }

  lemma {:induction false} AddNewElems<K>(seen: seq<K>, ks: seq<K>)
    ensures forall x :: x in AddNew(seen, ks) <==> x in seen || x in ks
    decreases |ks|
  {
    if |ks| > 0 {
      AddNewElems(if ks[0] in seen then seen else seen + [ks[0]], ks[1..]);
      assert forall x :: x in ks <==> x == ks[0] || x in ks[1..];
    }
  }

  lemma {:induction false} AddNewDistinct<K>(seen: seq<K>, ks: seq<K>)
    requires Distinct(seen)
    ensures Distinct(AddNew(seen, ks))
    decreases |ks|
  {
    if |ks| > 0 {
      AddNewDistinct(if ks[0] in seen then seen else seen + [ks[0]], ks[1..]);
    }
  }

  /** `d[k] = v` */
  function Put<K(==), V>(d: Dict<K, V>, k: K, v: V): Dict<K, V>
    decreases |d|
  {
    if |d| == 0 then [(k, v)]
    else if d[0].0 == k then [(k, v)] + d[1..]
    else [d[0]] + Put(d[1..], k, v)
  }

  /** A new key is appended. */
  lemma {:induction false} PutNew<K, V>(d: Dict<K, V>, k: K, v: V)
    requires k !in Keys(d)
    ensures Put(d, k, v) == d + [(k, v)]
    decreases |d|
  {
    if |d| > 0 {
      assert Keys(d) == [d[0].0] + Keys(d[1..]);
      PutNew(d[1..], k, v);
      assert d == [d[0]] + d[1..];
    }
  }

  /** A present key keeps its position, a new key goes last. */
  lemma {:induction false} PutKeys<K, V>(d: Dict<K, V>, k: K, v: V)
    ensures k in Keys(d) ==> Keys(Put(d, k, v)) == Keys(d)
    ensures k !in Keys(d) ==> Keys(Put(d, k, v)) == Keys(d) + [k]
    decreases |d|
  {
    if |d| > 0 {
      assert d == [d[0]] + d[1..];
      KeysCons(d[0], d[1..]);
      if d[0].0 == k {
        KeysCons((k, v), d[1..]);
      } else {
        PutKeys(d[1..], k, v);
        KeysCons(d[0], Put(d[1..], k, v));
      }
    }
  }

  /** After `d[k] = v` the key holds `v` and every other key is untouched. */
  lemma {:induction false} PutGet<K, V>(d: Dict<K, V>, k: K, v: V, k': K)
    ensures Get(Put(d, k, v), k') == if k' == k then Some(v) else Get(d, k')
    decreases |d|
  {
    if |d| > 0 && d[0].0 != k {
      PutGet(d[1..], k, v, k');
      assert Put(d, k, v)[1..] == Put(d[1..], k, v);
    } else if |d| > 0 {
      assert Put(d, k, v)[1..] == d[1..];
    }
  }

  /** `d[k] = v` adds no value other than `v`. */
  lemma {:induction false} PutValues<K, V>(d: Dict<K, V>, k: K, v: V)
    ensures Values(Put(d, k, v)) <= Values(d) + {v}
    decreases |d|
  {
    if |d| == 0 {
      ValuesCons((k, v), d);
    } else {
      assert d == [d[0]] + d[1..];
      ValuesCons(d[0], d[1..]);
      if d[0].0 == k {
        ValuesCons((k, v), d[1..]);
      } else {
        PutValues(d[1..], k, v);
        ValuesCons(d[0], Put(d[1..], k, v));
      }
    }
  }

  /** `d[k] = v` keeps keys distinct. */
  lemma {:induction false} PutDistinct<K, V>(d: Dict<K, V>, k: K, v: V)
    requires DistinctKeys(d)
    ensures DistinctKeys(Put(d, k, v))
    decreases |d|
  {
    if |d| == 0 {
      DistinctCons((k, v), d);
    } else {
      assert d == [d[0]] + d[1..];
      DistinctCons(d[0], d[1..]);
      KeysCons(d[0], d[1..]);
      if d[0].0 == k {
        DistinctCons((k, v), d[1..]);
      } else {
        PutDistinct(d[1..], k, v);
        PutKeys(d[1..], k, v);
        DistinctCons(d[0], Put(d[1..], k, v));
      }
    }
  }

  /** `d[k] = v` for every entry of `entries`, in order. */
  function PutEach<K(==), V>(d: Dict<K, V>, entries: Dict<K, V>): Dict<K, V>
    decreases |entries|
  {
    if |entries| == 0 then d
    else Put(PutEach(d, entries[..|entries| - 1]), entries[|entries| - 1].0, entries[|entries| - 1].1)
  }

  /** Writing entries with distinct keys into an empty dictionary gives them back as they
      are, in order. */
  lemma {:induction false} PutEachFresh<K, V>(entries: Dict<K, V>)
    requires DistinctKeys(entries)
    ensures PutEach([], entries) == entries
    decreases |entries|
  {
    if |entries| > 0 {
      var n := |entries| - 1;
      var front := entries[..n];
      assert DistinctKeys(front);
      PutEachFresh(front);
      assert entries[n].0 !in Keys(front) by {
        forall j | 0 <= j < n ensures Keys(front)[j] != entries[n].0 {
          assert front[j] == entries[j];
        }
      }
      PutNew(front, entries[n].0, entries[n].1);
      assert front + [entries[n]] == entries;
    }
  }

  /** One more entry is one more write. */
  lemma PutEachSnoc<K, V>(d: Dict<K, V>, entries: Dict<K, V>, k: K, v: V)
    ensures PutEach(d, entries + [(k, v)]) == Put(PutEach(d, entries), k, v)
  {
    assert (entries + [(k, v)])[..|entries|] == entries;
  }

  /** `Get` on a dictionary with one more entry at the end. */
  lemma {:induction false} GetAppend<K, V>(d: Dict<K, V>, e: (K, V), k: K)
    ensures Get(d + [e], k) == if k in Keys(d) then Get(d, k) else if k == e.0 then Some(e.1) else None
    decreases |d|
  {
    if |d| > 0 {
      assert (d + [e])[1..] == d[1..] + [e];
      KeysCons(d[0], d[1..]);
      assert d == [d[0]] + d[1..];
      GetAppend(d[1..], e, k);
    }
  }
}
