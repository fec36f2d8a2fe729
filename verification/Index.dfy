/** One folder's index as a map from paths to entries, and its size against the limits. */
module Index {
  import opened Model
  import opened Paths
  import opened Layout
  import opened Json

  type Index = map<string, Entry>

  /** The rows an index may hold: keyed by their own path and acceptable to ValidateEntry. */
  ghost predicate ValidRows(m: Index) {
    forall p :: p in m ==> m[p].path == p && ValidEntry(m[p])
  }

  /** The sum of length(manifest) + 1 over all rows. */
  ghost function ManifestBytes(m: Index): (n: nat) {
    if m == map[] then 0
    else
      var p :| p in m;
      ManifestLength(m[p]) + 1 + ManifestBytes(m - {p})
  }

  lemma NoRows()
    ensures ManifestBytes(map[]) == 0
  {}

  lemma {:induction false} ManifestBytesRemove(m: Index, p: string)
    requires p in m
    ensures ManifestBytes(m) == ManifestLength(m[p]) + 1 + ManifestBytes(m - {p})
    decreases |m|
  {
    hide ManifestLength;
    var q :| q in m && ManifestBytes(m) == ManifestLength(m[q]) + 1 + ManifestBytes(m - {q});
    if q != p {
      assert p in m - {q} && |m - {q}| < |m| && |m - {p}| < |m|;
      ManifestBytesRemove(m - {q}, p);
      ManifestBytesRemove(m - {p}, q);
      assert m - {q} - {p} == m - {p} - {q};
    }
  }

  lemma SizeUpdate(m: Index, p: string, e: Entry)
    ensures |m[p := e]| == |m| + (if p in m then 0 else 1)
  {
    assert m[p := e].Keys == m.Keys + {p};
    assert |m[p := e]| == |m[p := e].Keys| && |m| == |m.Keys|;
  }

  lemma ManifestBytesUpdate(m: Index, p: string, e: Entry)
    ensures ManifestBytes(m[p := e]) ==
              ManifestBytes(m) + ManifestLength(e) + 1 - (if p in m then ManifestLength(m[p]) + 1 else 0)
  {
    hide ManifestLength, ManifestBytes;
    var m' := m[p := e];
    ManifestBytesRemove(m', p);
    assert m'[p] == e;
    if p in m {
      ManifestBytesRemove(m, p);
      assert m' - {p} == m - {p};
    } else {
      assert m' - {p} == m;
    }
  }

  /** The two limits on a folder index. */
  ghost predicate WithinLimits(m: Index) {
    |m| <= MAX_ENTRIES && ManifestBytes(m) <= MAX_MANIFEST_BYTES - 2
  }

  /** Committing e keeps the index within its limits. */
  ghost predicate Fits(m: Index, e: Entry) {
    WithinLimits(m[e.path := e])
  }

  ghost function TotalBytes(es: seq<Entry>): nat {
    if es == [] then 0 else TotalBytes(es[..|es| - 1]) + ManifestLength(es[|es| - 1]) + 1
  }

  lemma AppendBytes(es: seq<Entry>, e: Entry)
    ensures TotalBytes(es + [e]) == TotalBytes(es) + ManifestLength(e) + 1
  {
    assert (es + [e])[..|es|] == es;
  }

  /** m overridden by the entries of es, the later ones last. */
  function Override(m: Index, es: seq<Entry>): Index {
    if es == [] then m
    else Override(m, es[..|es| - 1])[es[|es| - 1].path := es[|es| - 1]]
  }

  lemma {:induction false} OverrideKeys(m: Index, es: seq<Entry>)
    ensures forall p :: p in Override(m, es) <==> p in m || exists i :: 0 <= i < |es| && es[i].path == p
    ensures forall p :: p in Override(m, es) ==>
              (p in m && Override(m, es)[p] == m[p]) ||
              (exists i :: 0 <= i < |es| && es[i].path == p && Override(m, es)[p] == es[i])
    ensures forall p :: p in m && (forall i :: 0 <= i < |es| ==> es[i].path != p) ==> Override(m, es)[p] == m[p]
  {
    if es != [] {
      var last := |es| - 1;
      var init := es[..last];
      OverrideKeys(m, init);
      forall p | p in Override(m, es)
        ensures p in m || exists i :: 0 <= i < |es| && es[i].path == p
        ensures (p in m && Override(m, es)[p] == m[p]) ||
                (exists i :: 0 <= i < |es| && es[i].path == p && Override(m, es)[p] == es[i])
      {
        if p == es[last].path {
          assert es[last].path == p;
        } else if p in Override(m, init) {
          if !(p in m && Override(m, init)[p] == m[p]) {
            var i :| 0 <= i < |init| && init[i].path == p && Override(m, init)[p] == init[i];
            assert es[i] == init[i];
          }
        }
      }
      forall p | p in m || exists i :: 0 <= i < |es| && es[i].path == p ensures p in Override(m, es) {
        if p !in m && p != es[last].path {
          var i :| 0 <= i < |es| && es[i].path == p;
          assert init[i] == es[i];
        }
      }
    }
  }

  ghost predicate DistinctPaths(es: seq<Entry>) {
    forall i, j :: 0 <= i < j < |es| ==> es[i].path != es[j].path
  }

  lemma {:induction false} OverrideDistinct(m: Index, es: seq<Entry>, i: nat)
    requires i < |es| && DistinctPaths(es)
    ensures es[i].path in Override(m, es) && Override(m, es)[es[i].path] == es[i]
  {
    if i < |es| - 1 {
      OverrideDistinct(m, es[..|es| - 1], i);
    }
  }

  /** Overriding costs at most the sum of what is written. */
  lemma {:induction false} OverrideBytes(m: Index, es: seq<Entry>)
    ensures ManifestBytes(Override(m, es)) <= ManifestBytes(m) + TotalBytes(es)
  {
    if es != [] {
      var init := es[..|es| - 1];
      OverrideBytes(m, init);
      ManifestBytesUpdate(Override(m, init), es[|es| - 1].path, es[|es| - 1]);
    }
  }

  /** Filling an empty index with distinct paths costs exactly the sum. */
  lemma {:induction false} FillBytes(es: seq<Entry>)
    requires DistinctPaths(es)
    ensures ManifestBytes(Override(map[], es)) == TotalBytes(es)
    ensures |Override(map[], es)| == |es|
  {
    hide ManifestLength;
    if es != [] {
      var last := |es| - 1;
      var init := es[..last];
      assert forall j, k :: 0 <= j < k < |init| ==> init[j].path != init[k].path;
      FillBytes(init);
      OverrideKeys(map[], init);
      forall i | 0 <= i < |init| ensures init[i].path != es[last].path {
        assert init[i] == es[i];
      }
      SizeUpdate(Override(map[], init), es[last].path, es[last]);
      ManifestBytesUpdate(Override(map[], init), es[last].path, es[last]);
    }
  }

  /** es lists m: every row once, in path order. */
  ghost predicate Listing(es: seq<Entry>, m: Index) {
    && (forall i, j :: 0 <= i < j < |es| ==> Less(es[i].path, es[j].path))
    && (forall i :: 0 <= i < |es| ==> es[i].path in m && m[es[i].path] == es[i])
    && (forall p :: p in m ==> m[p] in es)
  }

  /** An index whose rows are in another, no longer there than here, is no larger. */
  lemma {:induction false} DominatedBytes(a: Index, b: Index)
    requires forall p :: p in a ==> p in b && ManifestLength(a[p]) <= ManifestLength(b[p])
    ensures |a| <= |b| && ManifestBytes(a) <= ManifestBytes(b)
    decreases |a|
  {
    hide ManifestLength;
    if a != map[] {
      var p :| p in a;
      DominatedBytes(a - {p}, b - {p});
      ManifestBytesRemove(a, p);
      ManifestBytesRemove(b, p);
      assert (a - {p}).Keys == a.Keys - {p} && (b - {p}).Keys == b.Keys - {p};
      assert |a| == |a.Keys| && |b| == |b.Keys| && |a - {p}| == |(a - {p}).Keys| && |b - {p}| == |(b - {p}).Keys|;
    }
  }

  function Longer(a: Entry, b: Entry): (e: Entry)
    ensures ManifestLength(a) <= ManifestLength(e) && ManifestLength(b) <= ManifestLength(e)
  {
    if ManifestLength(a) >= ManifestLength(b) then a else b
  }

  /** The rows of both, and the longer one where both have a path. */
  function Longest(a: Index, b: Index): Index {
    map p | p in a.Keys + b.Keys :: if p !in b then a[p] else if p !in a then b[p] else Longer(a[p], b[p])
  }

  /** Every part of the list can be committed over m. */
  ghost predicate RoomAlong(m: Index, es: seq<Entry>) {
    forall k :: 0 <= k <= |es| ==> WithinLimits(Override(m, es[..k]))
  }

  lemma LongestHas(a: Index, b: Index, p: string)
    ensures p in Longest(a, b) <==> p in a || p in b
    ensures p in a ==> ManifestLength(a[p]) <= ManifestLength(Longest(a, b)[p])
    ensures p in b ==> ManifestLength(b[p]) <= ManifestLength(Longest(a, b)[p])
  {
    hide ManifestLength, Longer;
  }

  /** There is room all along if there is room for the longer row of every path. */
  lemma LongestIsRoom(m: Index, es: seq<Entry>, n: Index)
    requires (forall i :: 0 <= i < |es| ==> es[i].path in n && n[es[i].path] == es[i]) && WithinLimits(Longest(m, n))
    ensures RoomAlong(m, es)
  {
    hide ManifestLength, ManifestBytes, Override, Longest;
    forall k | 0 <= k <= |es| ensures WithinLimits(Override(m, es[..k])) {
      var o := Override(m, es[..k]);
      OverrideKeys(m, es[..k]);
      forall p | p in o ensures p in Longest(m, n) && ManifestLength(o[p]) <= ManifestLength(Longest(m, n)[p]) {
        LongestHas(m, n, p);
      }
      DominatedBytes(o, Longest(m, n));
    }
  }

  lemma {:induction false} TotalBytesPrefix(es: seq<Entry>, k: nat)
    requires k <= |es|
    ensures TotalBytes(es[..k]) <= TotalBytes(es)
  {
    hide ManifestLength;
    if k < |es| {
      var init := es[..|es| - 1];
      TotalBytesPrefix(init, k);
      assert init[..k] == es[..k];
    } else {
      assert es[..k] == es;
    }
  }

  /** A list whose rows fit as a whole fits at every prefix. */
  lemma PrefixWithinLimits(es: seq<Entry>, k: nat)
    requires k <= |es| && DistinctPaths(es) && WithinLimits(Override(map[], es))
    ensures WithinLimits(Override(map[], es[..k]))
  {
    hide ManifestLength, ManifestBytes, TotalBytes, Override;
    FillBytes(es);
    FillBytes(es[..k]);
    TotalBytesPrefix(es, k);
  }
}
