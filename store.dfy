/**
 * The sample store: `tables[metric].versions[version]` in index.js, the
 * samples of every (metric, version) group in arrival order. The store is a
 * map from metric to a map from version to the group; the `versions` wrapper
 * object of the source carries nothing else and is not a separate level here.
 */
module Store {
  import opened Samples
  import opened Strings

  type Versions = map<string, seq<Sample>>
  type Tables = map<string, Versions>

  /** The samples of one group; a group that was never created has none. */
  function Group(t: Tables, metric: string, version: string): seq<Sample> {
    if metric in t && version in t[metric] then t[metric][version] else []
  }

  /**
   * Adding a sample: create the metric's table and the version's list when
   * missing, then push. The sample lands at the end of its own group, every
   * other group is unchanged, and only the sample's metric and version can
   * become new keys.
   */
  function Insert(t: Tables, e: Sample): (r: Tables)
    ensures forall m, v :: Group(r, m, v) ==
              Group(t, m, v) + (if m == e.metric && v == e.version then [e] else [])
    ensures r.Keys == t.Keys + {e.metric}
    ensures r[e.metric].Keys == (if e.metric in t then t[e.metric].Keys else {}) + {e.version}
    ensures forall m :: m in t && m != e.metric ==> r[m] == t[m]
  {
    var versions := if e.metric in t then t[e.metric] else map[];
    var group := if e.version in versions then versions[e.version] else [];
    t[e.metric := versions[e.version := group + [e]]]
  }

  /** A group holds only samples with its key, and a group that exists is not empty. */
  ghost predicate GroupSound(g: seq<Sample>, metric: string, version: string) {
    g != [] && forall i :: 0 <= i < |g| ==> g[i].metric == metric && g[i].version == version
  }

  ghost predicate WellFormed(t: Tables) {
    forall m :: m in t ==> t[m] != map[] && forall v :: v in t[m] ==> GroupSound(t[m][v], m, v)
  }

  /** Adding a sample keeps the store well formed. */
  lemma InsertWellFormed(t: Tables, e: Sample)
    requires WellFormed(t)
    ensures WellFormed(Insert(t, e))
  {
    var r := Insert(t, e);
    forall m | m in r
      ensures r[m] != map[] && forall v :: v in r[m] ==> GroupSound(r[m][v], m, v)
    {
      if m == e.metric {
        assert e.version in r[m];
        forall v | v in r[m] ensures GroupSound(r[m][v], m, v) {
          if v == e.version {
            var g := Group(t, m, v);
            assert r[m][v] == g + [e];
            assert g != [] ==> GroupSound(g, m, v);
          }
        }
      }
    }
  }

  // ---------------------------------------------------------------------
  // Counting the samples in the store

  /** The sum of the values of a map. */
  ghost function SumValues<K>(m: map<K, nat>): nat
    decreases |m|
  {
    if m == map[] then 0
    else
      var k :| k in m;
      m[k] + SumValues(m - {k})
  }

  /** Any key can be taken out first. */
  lemma {:induction false} SumValuesRemove<K>(m: map<K, nat>, k: K)
    requires k in m
    ensures SumValues(m) == m[k] + SumValues(m - {k})
    decreases |m|
  {
    var j :| j in m && SumValues(m) == m[j] + SumValues(m - {j});
    if j != k {
      var mj := m - {j};
      var mk := m - {k};
      assert |mj| < |m| && k in mj;
      SumValuesRemove(mj, k);
      assert |mk| < |m| && j in mk;
      SumValuesRemove(mk, j);
      assert mj - {k} == mk - {j};
    }
  }

  /** Changing one value changes the sum by the difference. */
  lemma SumValuesUpdate<K>(m: map<K, nat>, k: K, x: nat)
    ensures SumValues(m[k := x]) + (if k in m then m[k] else 0) == SumValues(m) + x
  {
    SumValuesRemove(m[k := x], k);
    assert m[k := x] - {k} == m - {k};
    if k in m {
      SumValuesRemove(m, k);
    } else {
      assert m - {k} == m;
    }
  }

  function Sizes(vs: Versions): map<string, nat> {
    map v | v in vs :: |vs[v]|
  }

  /** The number of samples of one metric. */
  ghost function MetricTotal(vs: Versions): nat {
    SumValues(Sizes(vs))
  }

  /** The number of samples in the store. */
  ghost function Total(t: Tables): nat {
    SumValues(MetricTotals(t))
  }

  ghost function MetricTotals(t: Tables): map<string, nat> {
    map m | m in t :: MetricTotal(t[m])
  }

  /** Adding a sample adds exactly one to the number of samples. */
  lemma {:induction false} InsertTotal(t: Tables, e: Sample)
    ensures Total(Insert(t, e)) == Total(t) + 1
  {
    var versions := if e.metric in t then t[e.metric] else map[];
    var group := if e.version in versions then versions[e.version] else [];
    var updated := versions[e.version := group + [e]];
    assert Insert(t, e) == t[e.metric := updated];
    PushTotal(versions, e.version, e);
    ReplaceTotal(t, e.metric, updated);
    if e.metric !in t {
      assert Sizes(versions) == map[];
    }
  }

  /** Pushing onto one version's list adds one to the metric's count. */
  lemma {:induction false} PushTotal(vs: Versions, v: string, e: Sample)
    ensures MetricTotal(vs[v := (if v in vs then vs[v] else []) + [e]]) == MetricTotal(vs) + 1
  {
    var group := if v in vs then vs[v] else [];
    assert Sizes(vs[v := group + [e]]) == Sizes(vs)[v := |group| + 1];
    SumValuesUpdate(Sizes(vs), v, |group| + 1);
  }

  /** Replacing one metric's table changes the count by the difference. */
  lemma {:induction false} ReplaceTotal(t: Tables, m: string, vs: Versions)
    ensures Total(t[m := vs]) + (if m in t then MetricTotal(t[m]) else 0) == Total(t) + MetricTotal(vs)
  {
    assert MetricTotals(t[m := vs]) == MetricTotals(t)[m := MetricTotal(vs)];
    SumValuesUpdate(MetricTotals(t), m, MetricTotal(vs));
  }

  // ---------------------------------------------------------------------
  // Adding many samples

  /** The store after adding the samples `es` in order. */
  function InsertAll(t: Tables, es: seq<Sample>): Tables {
    if es == [] then t else Insert(InsertAll(t, es[..|es| - 1]), es[|es| - 1])
  }

  /** Adding one more sample after `es`. */
  lemma InsertAllSnoc(t: Tables, es: seq<Sample>, e: Sample)
    ensures InsertAll(t, es + [e]) == Insert(InsertAll(t, es), e)
  {
    assert (es + [e])[..|es|] == es;
  }

  /** Storing `a` and then `b` is storing `a + b`: several files fill one store. */
  lemma {:induction false} InsertAllAppend(t: Tables, a: seq<Sample>, b: seq<Sample>)
    ensures InsertAll(InsertAll(t, a), b) == InsertAll(t, a + b)
  {
    if b == [] {
      assert a + b == a;
    } else {
      var init := b[..|b| - 1];
      var e := b[|b| - 1];
      assert b == init + [e];
      InsertAllAppend(t, a, init);
      InsertAllSnoc(InsertAll(t, a), init, e);
      AppendAssoc(a, init, [e]);
      InsertAllSnoc(t, a + init, e);
    }
  }

  /** The samples of `es` that belong to the group (metric, version), in order. */
  function Select(es: seq<Sample>, metric: string, version: string): (r: seq<Sample>)
    ensures |r| <= |es|
    ensures forall i :: 0 <= i < |r| ==> r[i].metric == metric && r[i].version == version
  {
    if es == [] then []
    else
      var e := es[|es| - 1];
      Select(es[..|es| - 1], metric, version) + (if e.metric == metric && e.version == version then [e] else [])
  }

  /** The samples of `es` of one metric, in order. */
  function SelectMetric(es: seq<Sample>, metric: string): seq<Sample> {
    if es == [] then []
    else
      var e := es[|es| - 1];
      SelectMetric(es[..|es| - 1], metric) + (if e.metric == metric then [e] else [])
  }

  /** A sample of `es` makes its group's selection non-empty. */
  lemma {:induction false} SelectHas(es: seq<Sample>, i: nat)
    requires i < |es|
    ensures Select(es, es[i].metric, es[i].version) != []
  {
    if i < |es| - 1 {
      SelectHas(es[..|es| - 1], i);
    }
  }

  /** Each group receives exactly its own samples, appended in arrival order. */
  lemma {:induction false} InsertAllGroup(t: Tables, es: seq<Sample>, metric: string, version: string)
    ensures Group(InsertAll(t, es), metric, version) == Group(t, metric, version) + Select(es, metric, version)
  {
    if es != [] {
      InsertAllGroup(t, es[..|es| - 1], metric, version);
    }
  }

  /** Adding `es` adds exactly `|es|` samples. */
  lemma {:induction false} InsertAllTotal(t: Tables, es: seq<Sample>)
    ensures Total(InsertAll(t, es)) == Total(t) + |es|
  {
    if es != [] {
      InsertAllTotal(t, es[..|es| - 1]);
      InsertTotal(InsertAll(t, es[..|es| - 1]), es[|es| - 1]);
    }
  }

  /** Adding `es` keeps the store well formed. */
  lemma {:induction false} InsertAllWellFormed(t: Tables, es: seq<Sample>)
    requires WellFormed(t)
    ensures WellFormed(InsertAll(t, es))
  {
    if es != [] {
      InsertAllWellFormed(t, es[..|es| - 1]);
      InsertWellFormed(InsertAll(t, es[..|es| - 1]), es[|es| - 1]);
    }
  }
}
