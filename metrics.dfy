/**
 * The pipeline's shared state in index.js: the global `tables` that every
 * file's parse loop appends to, and the global `summaries` that `loaded`
 * fills and `print` sorts and turns into table rows.
 */
module Metrics {
  import opened Wrappers
  import opened Strings
  import opened Samples
  import opened Store
  import opened Aggregate
  import opened Report

  /** `keys` lists every element of `s` exactly once: what `Object.keys` gives, in some fixed order. */
  predicate Enumerates(keys: seq<string>, s: set<string>) {
    && (forall i :: 0 <= i < |keys| ==> keys[i] in s)
    && (forall x :: x in s ==> x in keys)
    && (forall i, j :: 0 <= i < j < |keys| ==> keys[i] != keys[j])
  }

  /** The summaries of one metric's groups, in the order its versions are visited. */
  function MetricSummaries(t: Tables, metric: string, versions: seq<string>): seq<Summary>
    requires metric in t
    requires forall i :: 0 <= i < |versions| ==> versions[i] in t[metric]
  {
    if versions == [] then []
    else
      var v := versions[|versions| - 1];
      MetricSummaries(t, metric, versions[..|versions| - 1]) + [SummaryOf(metric, v, t[metric][v])]
  }

  /** Visiting one metric: its summaries are pushed after any it already has. */
  function AddMetric(sm: map<string, seq<Summary>>, t: Tables, metric: string, versions: seq<string>)
    : map<string, seq<Summary>>
    requires metric in t
    requires forall i :: 0 <= i < |versions| ==> versions[i] in t[metric]
  {
    if versions == [] then sm
    else sm[metric := (if metric in sm then sm[metric] else []) + MetricSummaries(t, metric, versions)]
  }

  /** Visiting one more version pushes its group's summary onto the metric's list. */
  lemma AddMetricSnoc(sm: map<string, seq<Summary>>, t: Tables, metric: string, versions: seq<string>, v: string)
    requires metric in t && v in t[metric]
    requires forall i :: 0 <= i < |versions| ==> versions[i] in t[metric]
    ensures var before := AddMetric(sm, t, metric, versions);
            AddMetric(sm, t, metric, versions + [v]) ==
            before[metric := (if metric in before then before[metric] else []) + [SummaryOf(metric, v, t[metric][v])]]
  {
    var vs := versions + [v];
    assert vs[..|vs| - 1] == versions;
    var prior := if metric in sm then sm[metric] else [];
    var done := MetricSummaries(t, metric, versions);
    var x := SummaryOf(metric, v, t[metric][v]);
    assert MetricSummaries(t, metric, vs) == done + [x];
    assert AddMetric(sm, t, metric, vs) == sm[metric := prior + (done + [x])];
    if versions == [] {
      assert done == [];
      assert prior + ([] + [x]) == prior + [x];
    } else {
      assert AddMetric(sm, t, metric, versions) == sm[metric := prior + done];
      assert prior + (done + [x]) == (prior + done) + [x];
    }
  }

  /** Reading one more line of a file: the header and empty lines leave the store as it is. */
  lemma IngestLine(start: Tables, done: seq<string>, line: string, parseFloat: string -> real)
    ensures var before := InsertAll(start, FileSamples(done, parseFloat));
            InsertAll(start, FileSamples(done + [line], parseFloat)) ==
            if |done| != 0 && line != "" then Insert(before, ParseLine(line, parseFloat)) else before
  {
    var es := FileSamples(done, parseFloat);
    FileSamplesAppend(done, line, parseFloat);
    if |done| != 0 && line != "" {
      var e := ParseLine(line, parseFloat);
      assert LineSamples(line, parseFloat) == [e];
      InsertAllSnoc(start, es, e);
    } else {
      assert LineSamples(line, parseFloat) == [] || |done| == 0;
      assert FileSamples(done + [line], parseFloat) == es + [];
      assert es + [] == es;
    }
  }

  /** The precondition of the summary pass: the key orders really enumerate the store. */
  predicate Orders(t: Tables, metrics: seq<string>, versionOrder: map<string, seq<string>>) {
    && (forall i :: 0 <= i < |metrics| ==> metrics[i] in t)
    && (forall i, j :: 0 <= i < j < |metrics| ==> metrics[i] != metrics[j])
    && (forall m :: m in t ==> m in versionOrder && Enumerates(versionOrder[m], t[m].Keys))
  }

  /** The summaries after visiting `metrics` in order. */
  function SummarizeAll(sm: map<string, seq<Summary>>, t: Tables, metrics: seq<string>,
                        versionOrder: map<string, seq<string>>): map<string, seq<Summary>>
    requires Orders(t, metrics, versionOrder)
  {
    if metrics == [] then sm
    else
      var m := metrics[|metrics| - 1];
      AddMetric(SummarizeAll(sm, t, metrics[..|metrics| - 1], versionOrder), t, m, versionOrder[m])
  }

  // ---------------------------------------------------------------------
  // What the summary pass produces

  /** A duplicate-free listing of a set is as long as the set is large. */
  lemma {:induction false} EnumerationSize(keys: seq<string>, s: set<string>)
    requires Enumerates(keys, s)
    ensures |keys| == |s|
  {
    if keys != [] {
      var rest := s - {keys[0]};
      forall x | x in rest ensures x in keys[1..] {
        var i :| 0 <= i < |keys| && keys[i] == x;
        assert i != 0;
        assert keys[1..][i - 1] == x;
      }
      assert Enumerates(keys[1..], rest);
      EnumerationSize(keys[1..], rest);
    } else {
      assert forall x :: x !in s;
      assert s == {};
    }
  }

  /** The summaries of a metric come one per visited version, in the order visited. */
  lemma {:induction false} MetricSummariesShape(t: Tables, metric: string, versions: seq<string>)
    requires metric in t
    requires forall i :: 0 <= i < |versions| ==> versions[i] in t[metric]
    ensures |MetricSummaries(t, metric, versions)| == |versions|
    ensures forall k :: 0 <= k < |versions| ==>
              && MetricSummaries(t, metric, versions)[k].metric == metric
              && MetricSummaries(t, metric, versions)[k].version == versions[k]
  {
    if versions != [] {
      MetricSummariesShape(t, metric, versions[..|versions| - 1]);
    }
  }

  /** The k-th summary of a metric is the summary of the group of its k-th version. */
  lemma {:induction false} MetricSummaryAt(t: Tables, metric: string, versions: seq<string>, k: int)
    requires metric in t
    requires forall i :: 0 <= i < |versions| ==> versions[i] in t[metric]
    requires 0 <= k < |versions|
    ensures |MetricSummaries(t, metric, versions)| == |versions|
    ensures MetricSummaries(t, metric, versions)[k] == SummaryOf(metric, versions[k], t[metric][versions[k]])
  {
    MetricSummariesShape(t, metric, versions);
    if k < |versions| - 1 {
      MetricSummaryAt(t, metric, versions[..|versions| - 1], k);
    }
  }

  /** After the pass, a visited metric holds its earlier summaries followed by one per version. */
  lemma {:induction false} SummarizeAllAt(sm: map<string, seq<Summary>>, t: Tables, metrics: seq<string>,
                                          versionOrder: map<string, seq<string>>, m: string)
    requires Orders(t, metrics, versionOrder)
    ensures var r := SummarizeAll(sm, t, metrics, versionOrder);
            if m in metrics && versionOrder[m] != [] then
              m in r && r[m] == (if m in sm then sm[m] else []) + MetricSummaries(t, m, versionOrder[m])
            else
              (m in r <==> m in sm) && (m in sm ==> r[m] == sm[m])
  {
    if metrics != [] {
      var init := metrics[..|metrics| - 1];
      var last := metrics[|metrics| - 1];
      OrdersPrefix(t, metrics, versionOrder);
      SummarizeAllAt(sm, t, init, versionOrder, m);
      ghost var before := SummarizeAll(sm, t, init, versionOrder);
      assert SummarizeAll(sm, t, metrics, versionOrder) == AddMetric(before, t, last, versionOrder[last]);
      assert m in metrics <==> m in init || m == last;
      if m == last {
        assert m !in init;
      }
    }
  }

  /** Dropping the last metric of a visiting order leaves a visiting order. */
  lemma OrdersPrefix(t: Tables, metrics: seq<string>, versionOrder: map<string, seq<string>>)
    requires Orders(t, metrics, versionOrder) && metrics != []
    ensures Orders(t, metrics[..|metrics| - 1], versionOrder)
  {
  }

  /**
   * Starting from no summaries, the pass produces exactly one summary per
   * (metric, version) group of a well-formed store: every group's summary is
   * there, nothing else is, and no version appears twice in a metric's list.
   */
  lemma {:induction false} OneSummaryPerGroup(t: Tables, metrics: seq<string>, versionOrder: map<string, seq<string>>)
    requires WellFormed(t) && Orders(t, metrics, versionOrder) && Enumerates(metrics, t.Keys)
    ensures var r := SummarizeAll(map[], t, metrics, versionOrder);
            && r.Keys == t.Keys
            && forall m :: m in t ==> GroupsSummarized(t, m, r[m])
  {
    var r := SummarizeAll(map[], t, metrics, versionOrder);
    SummarizedKeys(t, metrics, versionOrder);
    forall m | m in t ensures GroupsSummarized(t, m, r[m]) {
      MetricSummarized(t, metrics, versionOrder, m);
    }
  }

  /** The pass gives summaries to exactly the metrics of the store. */
  lemma SummarizedKeys(t: Tables, metrics: seq<string>, versionOrder: map<string, seq<string>>)
    requires WellFormed(t) && Orders(t, metrics, versionOrder) && Enumerates(metrics, t.Keys)
    ensures SummarizeAll(map[], t, metrics, versionOrder).Keys == t.Keys
  {
    var r := SummarizeAll(map[], t, metrics, versionOrder);
    forall m ensures m in r <==> m in t {
      SummarizedKey(t, metrics, versionOrder, m);
    }
  }

  /** A metric has summaries after the pass exactly when it is in the store. */
  lemma {:induction false} SummarizedKey(t: Tables, metrics: seq<string>, versionOrder: map<string, seq<string>>, m: string)
    requires WellFormed(t) && Orders(t, metrics, versionOrder) && Enumerates(metrics, t.Keys)
    ensures m in SummarizeAll(map[], t, metrics, versionOrder) <==> m in t
  {
    SummarizeAllAt(map[], t, metrics, versionOrder, m);
    if m in t {
      var v :| v in t[m];
      assert v in versionOrder[m];
    }
  }

  /** One summary per group of `metric`, each its group's, and nothing else. */
  ghost predicate GroupsSummarized(t: Tables, metric: string, xs: seq<Summary>)
    requires metric in t
  {
    && |xs| == |t[metric].Keys|
    && (forall v :: v in t[metric] ==>
          exists k :: 0 <= k < |xs| && xs[k] == SummaryOf(metric, v, t[metric][v]))
    && (forall k :: 0 <= k < |xs| ==> xs[k].metric == metric && xs[k].version in t[metric])
    && (forall k, k' :: 0 <= k < k' < |xs| ==> xs[k].version != xs[k'].version)
  }

  lemma {:induction false} MetricSummarized(t: Tables, metrics: seq<string>,
                                            versionOrder: map<string, seq<string>>, m: string)
    requires WellFormed(t) && Orders(t, metrics, versionOrder) && Enumerates(metrics, t.Keys)
    requires m in t
    ensures var r := SummarizeAll(map[], t, metrics, versionOrder);
            m in r && GroupsSummarized(t, m, r[m])
  {
    var r := SummarizeAll(map[], t, metrics, versionOrder);
    var vs := versionOrder[m];
    var v0 :| v0 in t[m];
    assert v0 in vs;
    SummarizeAllAt(map[], t, metrics, versionOrder, m);
    assert r[m] == MetricSummaries(t, m, vs);
    EnumeratedGroupsSummarized(t, m, vs);
  }

  /** Visiting every version of a metric once summarizes each of its groups once. */
  lemma {:induction false} EnumeratedGroupsSummarized(t: Tables, m: string, vs: seq<string>)
    requires m in t && Enumerates(vs, t[m].Keys)
    ensures GroupsSummarized(t, m, MetricSummaries(t, m, vs))
  {
    var xs := MetricSummaries(t, m, vs);
    MetricSummariesShape(t, m, vs);
    EnumerationSize(vs, t[m].Keys);
    forall v | v in t[m] ensures exists k :: 0 <= k < |xs| && xs[k] == SummaryOf(m, v, t[m][v]) {
      VersionSummarized(t, m, vs, v);
    }
  }

  /** A version the order visits has its group's summary in the metric's list. */
  lemma VersionSummarized(t: Tables, m: string, vs: seq<string>, v: string)
    requires m in t && Enumerates(vs, t[m].Keys) && v in t[m]
    ensures var xs := MetricSummaries(t, m, vs);
            exists k :: 0 <= k < |xs| && xs[k] == SummaryOf(m, v, t[m][v])
  {
    var k :| 0 <= k < |vs| && vs[k] == v;
    MetricSummaryAt(t, m, vs, k);
  }

  /** The message counts of a list of summaries. */
  function SummaryCounts(xs: seq<Summary>): seq<Option<int>> {
    Projected(xs, (s: Summary) => s.count)
  }

  /** The samples of one metric's groups, one group after another. */
  function MetricSamples(t: Tables, metric: string, versions: seq<string>): seq<Sample>
    requires metric in t
    requires forall i :: 0 <= i < |versions| ==> versions[i] in t[metric]
  {
    if versions == [] then []
    else
      var v := versions[|versions| - 1];
      MetricSamples(t, metric, versions[..|versions| - 1]) + t[metric][v]
  }

  /** The summaries of a metric count, between them, every message its samples count. */
  lemma {:induction false} MetricCountsAgree(t: Tables, metric: string, versions: seq<string>)
    requires metric in t
    requires forall i :: 0 <= i < |versions| ==> versions[i] in t[metric]
    ensures Sum(SummaryCounts(MetricSummaries(t, metric, versions))) == Sum(Counts(MetricSamples(t, metric, versions)))
  {
    if versions != [] {
      var init := versions[..|versions| - 1];
      var v := versions[|versions| - 1];
      var g := t[metric][v];
      MetricCountsAgree(t, metric, init);
      var xs := MetricSummaries(t, metric, init);
      var es := MetricSamples(t, metric, init);
      assert MetricSummaries(t, metric, versions) == xs + [SummaryOf(metric, v, g)];
      assert MetricSamples(t, metric, versions) == es + g;
      SummaryCountsSnoc(xs, SummaryOf(metric, v, g));
      SumSnoc(SummaryCounts(xs), Sum(Counts(g)));
      ProjectedAppend(es, g, (e: Sample) => e.count);
      SumAppend(Counts(es), Counts(g));
    }
  }

  /**
   * Starting from an empty store, a metric's summaries count, between them,
   * exactly the messages counted by the samples of that metric that were read.
   */
  lemma SummariesCountReadSamples(es: seq<Sample>, m: string, vs: seq<string>)
    requires m in InsertAll(map[], es) && Enumerates(vs, InsertAll(map[], es)[m].Keys)
    ensures Sum(SummaryCounts(MetricSummaries(InsertAll(map[], es), m, vs))) == Sum(Counts(SelectMetric(es, m)))
  {
    var t := InsertAll(map[], es);
    MetricCountsAgree(t, m, vs);
    InsertedSamples(es, m, vs);
    SelectedTally(es, m, vs);
    forall i | 0 <= i < |es| && es[i].metric == m ensures es[i].version in vs {
      InsertAllGroup(map[], es, m, es[i].version);
      SelectHas(es, i);
    }
    WithinAll(es, m, vs);
    SumPermutation(Counts(MetricSamples(t, m, vs)), Counts(SelectMetric(es, m)));
  }

  /** The numbers counted by some samples, as a bag. */
  ghost function Tally(es: seq<Sample>): multiset<Option<int>> {
    multiset(Counts(es))
  }

  lemma TallyAppend(es: seq<Sample>, fs: seq<Sample>)
    ensures Tally(es + fs) == Tally(es) + Tally(fs)
  {
    ProjectedAppend(es, fs, (e: Sample) => e.count);
  }

  /** The samples of `es` of metric `m` whose version is one of `vs`, in order. */
  ghost function Within(es: seq<Sample>, m: string, vs: seq<string>): seq<Sample> {
    if es == [] then []
    else
      var e := es[|es| - 1];
      Within(es[..|es| - 1], m, vs) + (if e.metric == m && e.version in vs then [e] else [])
  }

  /** The groups of `es` for the versions `vs` of `m`, one after another. */
  ghost function Selected(es: seq<Sample>, m: string, vs: seq<string>): seq<Sample> {
    if vs == [] then []
    else Selected(es, m, vs[..|vs| - 1]) + Select(es, m, vs[|vs| - 1])
  }

  /** In a store built from `es`, a metric's samples are its groups' selections from `es`. */
  lemma {:induction false} InsertedSamples(es: seq<Sample>, m: string, vs: seq<string>)
    requires m in InsertAll(map[], es)
    requires forall i :: 0 <= i < |vs| ==> vs[i] in InsertAll(map[], es)[m]
    ensures MetricSamples(InsertAll(map[], es), m, vs) == Selected(es, m, vs)
  {
    if vs != [] {
      var v := vs[|vs| - 1];
      InsertedSamples(es, m, vs[..|vs| - 1]);
      InsertAllGroup(map[], es, m, v);
    }
  }

  /** Adding a version not yet listed adds exactly its group. */
  lemma {:induction false} WithinSnoc(es: seq<Sample>, m: string, vs: seq<string>, v: string)
    requires v !in vs
    ensures Tally(Within(es, m, vs + [v])) == Tally(Within(es, m, vs)) + Tally(Select(es, m, v))
  {
    if es != [] {
      var init := es[..|es| - 1];
      var e := es[|es| - 1];
      WithinSnoc(init, m, vs, v);
      var a := Within(init, m, vs + [v]);
      var b := Within(init, m, vs);
      var c := Select(init, m, v);
      assert e.version in vs + [v] <==> e.version in vs || e.version == v;
      if e.metric != m || (e.version !in vs && e.version != v) {
        AppendEmpty(a);
        AppendEmpty(b);
        AppendEmpty(c);
      } else if e.version == v {
        AppendEmpty(b);
        TallyAppend(a, [e]);
        TallyAppend(c, [e]);
      } else {
        AppendEmpty(c);
        TallyAppend(a, [e]);
        TallyAppend(b, [e]);
      }
    }
  }

  lemma {:induction false} WithinNone(es: seq<Sample>, m: string)
    ensures Within(es, m, []) == []
  {
    if es != [] {
      WithinNone(es[..|es| - 1], m);
    }
  }

  /** Listing each version once, the groups together hold the samples of those versions. */
  lemma {:induction false} SelectedTally(es: seq<Sample>, m: string, vs: seq<string>)
    requires forall i, j :: 0 <= i < j < |vs| ==> vs[i] != vs[j]
    ensures Tally(Selected(es, m, vs)) == Tally(Within(es, m, vs))
  {
    if vs == [] {
      WithinNone(es, m);
    } else {
      var init := vs[..|vs| - 1];
      var v := vs[|vs| - 1];
      SelectedTally(es, m, init);
      assert init + [v] == vs;
      WithinSnoc(es, m, init, v);
      TallyAppend(Selected(es, m, init), Select(es, m, v));
    }
  }

  /** When `vs` covers every version of `m` in `es`, nothing of `m` is left out. */
  lemma {:induction false} WithinAll(es: seq<Sample>, m: string, vs: seq<string>)
    requires forall i :: 0 <= i < |es| && es[i].metric == m ==> es[i].version in vs
    ensures Within(es, m, vs) == SelectMetric(es, m)
  {
    if es != [] {
      WithinAll(es[..|es| - 1], m, vs);
    }
  }

  lemma SummaryCountsSnoc(xs: seq<Summary>, x: Summary)
    ensures SummaryCounts(xs + [x]) == SummaryCounts(xs) + [x.count]
  {
  }

  /** The rows `console.table` receives for one metric. */
  function Rows(xs: seq<Summary>): seq<Row>
    requires AllRated(xs)
  {
    seq(|xs|, k requires 0 <= k < |xs| => ToRow(xs[k]))
  }

  /** The number a row's `rate` text shows: without its suffix and its commas, read by `parseInt`. */
  function ShownRate(r: Row): Option<int> {
    if |r.rate| >= 9 then ParseInt(Uncomma(r.rate[..|r.rate| - 9])) else None
  }

  /**
   * The rows of a ranked list of summaries keep its order: row k keeps every
   * field of summary k but `count`, `millis` and `metric`, shows summary k's
   * floored rate, and the rates shown never increase down the table.
   */
  lemma {:induction false} ShownRatesDescend(xs: seq<Summary>)
    requires AllRated(xs) && Ranked(xs)
    ensures |Rows(xs)| == |xs|
    ensures forall k :: 0 <= k < |xs| ==>
              var r := Rows(xs)[k];
              && r.version == xs[k].version && r.max == xs[k].max && r.min == xs[k].min
              && r.samples == xs[k].samples && r.lat == xs[k].lat
              && ShownRate(r) == Some(FlooredRate(xs[k]))
    ensures forall i, j :: 0 <= i < j < |xs| ==>
              ShownRate(Rows(xs)[i]).value >= ShownRate(Rows(xs)[j]).value
  {
    forall k | 0 <= k < |xs|
      ensures ShownRate(Rows(xs)[k]) == Some(FlooredRate(xs[k]))
    {
      RateReadsBack(xs[k]);
    }
    forall i, j | 0 <= i < j < |xs|
      ensures FlooredRate(xs[i]) >= FlooredRate(xs[j])
    {
      assert Key(xs[i]) >= Key(xs[j]);
    }
  }

  class Metrics {
    var tables: Tables
    var summaries: map<string, seq<Summary>>

    constructor ()
      ensures tables == map[] && summaries == map[]
    {
      tables := map[];
      summaries := map[];
    }

    /** Lines 69-78: file the sample under its metric and version, creating either when missing. */
    method Add(e: Sample)
      modifies this
      ensures tables == Insert(old(tables), e)
      ensures summaries == old(summaries)
      ensures WellFormed(old(tables)) ==> WellFormed(tables)
    {
      if WellFormed(tables) {
        InsertWellFormed(tables, e);
      }
      ghost var before := tables;
      ghost var known := if e.metric in tables then tables[e.metric] else map[];
      ghost var group := if e.version in known then known[e.version] else [];
      if e.metric !in tables {
        tables := tables[e.metric := map[]];
      }
      var versions := tables[e.metric];
      if e.version !in versions {
        versions := versions[e.version := []];
      }
      assert versions == known[e.version := group];
      versions := versions[e.version := versions[e.version] + [e]];
      tables := tables[e.metric := versions];
      assert versions == known[e.version := group + [e]];
      assert tables == before[e.metric := versions];
    }

    /**
     * Lines 45-79: the text of one file, split into lines; every line but the
     * header and the empty ones becomes a sample in the store.
     */
    method Ingest(data: string, parseFloat: string -> real)
      modifies this
      ensures tables == InsertAll(old(tables), FileSamples(Split(data, '\n'), parseFloat))
      ensures summaries == old(summaries)
      ensures WellFormed(old(tables)) ==> WellFormed(tables)
    {
      var lines := Split(data, '\n');
      ghost var start := tables;
      var index := 0;
      while index < |lines|
        invariant 0 <= index <= |lines|
        invariant tables == InsertAll(start, FileSamples(lines[..index], parseFloat))
        invariant summaries == old(summaries)
      {
        var line := lines[index];
        ghost var read := lines[..index + 1];
        TakeOneMore(lines, index);
        IngestLine(start, lines[..index], line, parseFloat);
        ghost var next := InsertAll(start, FileSamples(read, parseFloat));
        if index != 0 && line != "" {
          var e := ParseLine(line, parseFloat);
          Add(e);
        }
        assert tables == next;
        index := index + 1;
        assert lines[..index] == read;
      }
      assert lines[..index] == lines;
      if WellFormed(start) {
        InsertAllWellFormed(start, FileSamples(lines, parseFloat));
      }
    }

    /**
     * Lines 89-126: every group is reduced to its summary, which is pushed
     * onto its metric's list, creating the list when missing.
     */
    method Summarize(metricOrder: seq<string>, versionOrder: map<string, seq<string>>)
      requires Orders(tables, metricOrder, versionOrder)
      modifies this
      ensures tables == old(tables)
      ensures summaries == SummarizeAll(old(summaries), tables, metricOrder, versionOrder)
    {
      var i := 0;
      while i < |metricOrder|
        invariant 0 <= i <= |metricOrder|
        invariant tables == old(tables)
        invariant summaries == SummarizeAll(old(summaries), tables, metricOrder[..i], versionOrder)
      {
        var metric := metricOrder[i];
        SummarizeMetric(metric, versionOrder[metric]);
        assert metricOrder[..i + 1][..i] == metricOrder[..i];
        i := i + 1;
      }
      assert metricOrder[..i] == metricOrder;
    }

    /** Lines 90-125: the groups of one metric, in the order its versions are visited. */
    method SummarizeMetric(metric: string, versions: seq<string>)
      requires metric in tables
      requires forall i :: 0 <= i < |versions| ==> versions[i] in tables[metric]
      modifies this
      ensures tables == old(tables)
      ensures summaries == AddMetric(old(summaries), tables, metric, versions)
    {
      var j := 0;
      while j < |versions|
        invariant 0 <= j <= |versions|
        invariant tables == old(tables)
        invariant summaries == AddMetric(old(summaries), tables, metric, versions[..j])
      {
        var version := versions[j];
        var s := Reduce(metric, version, tables[metric][version]);
        TakeOneMore(versions, j);
        AddMetricSnoc(old(summaries), tables, metric, versions[..j], version);
        if metric !in summaries {
          summaries := summaries[metric := []];
        }
        summaries := summaries[metric := summaries[metric] + [s]];
        j := j + 1;
      }
      assert versions[..j] == versions;
    }

    /**
     * Lines 137-148: each metric's summaries are sorted by descending rate in
     * place and become rows: `rate` formatted, `count`, `millis` and `metric`
     * dropped. The rows of each metric are returned in visiting order, as
     * they would be handed to `console.table`.
     */
    method Print(metricOrder: seq<string>) returns (report: seq<seq<Row>>)
      requires Enumerates(metricOrder, summaries.Keys)
      requires forall m :: m in summaries ==> AllRated(summaries[m])
      modifies this
      ensures tables == old(tables) && summaries.Keys == old(summaries).Keys
      ensures forall m :: m in summaries ==>
                AllRated(summaries[m]) && Ranked(summaries[m])
                && multiset(summaries[m]) == multiset(old(summaries)[m])
      ensures |report| == |metricOrder|
      ensures forall i :: 0 <= i < |metricOrder| ==> report[i] == Rows(summaries[metricOrder[i]])
    {
      report := [];
      var i := 0;
      while i < |metricOrder|
        invariant 0 <= i <= |metricOrder|
        invariant tables == old(tables)
        invariant Printing(old(summaries), summaries, metricOrder, report, i)
      {
        var metric := metricOrder[i];
        var xs := summaries[metric];
        var a := new Summary[|xs|](k requires 0 <= k < |xs| => xs[k]);
        assert a[..] == xs;
        SortByRate(a);
        var sorted := a[..];
        PrintingStep(old(summaries), summaries, metricOrder, report, i, sorted);
        summaries := summaries[metric := sorted];
        report := report + [Rows(sorted)];
        i := i + 1;
      }
      PrintingDone(old(summaries), summaries, metricOrder, report);
    }
  }

  /**
   * Partway through `print`: the first `i` metrics of `order` are sorted and
   * turned into rows, and every list still holds the summaries it started with.
   */
  ghost predicate Printing(before: map<string, seq<Summary>>, sm: map<string, seq<Summary>>,
                           order: seq<string>, report: seq<seq<Row>>, i: int)
    requires 0 <= i <= |order|
  {
    && sm.Keys == before.Keys
    && (forall m :: m in sm ==> AllRated(sm[m]) && multiset(sm[m]) == multiset(before[m]))
    && (forall k :: 0 <= k < i ==> order[k] in sm && Ranked(sm[order[k]]))
    && |report| == i
    && (forall k :: 0 <= k < i ==> report[k] == Rows(sm[order[k]]))
  }

  lemma PrintingStep(before: map<string, seq<Summary>>, sm: map<string, seq<Summary>>,
                     order: seq<string>, report: seq<seq<Row>>, i: int, ys: seq<Summary>)
    requires 0 <= i < |order| && Enumerates(order, before.Keys)
    requires Printing(before, sm, order, report, i)
    requires AllRated(ys) && Ranked(ys) && multiset(ys) == multiset(sm[order[i]])
    ensures Printing(before, sm[order[i] := ys], order, report + [Rows(ys)], i + 1)
  {
    var after := sm[order[i] := ys];
    forall k | 0 <= k < i ensures after[order[k]] == sm[order[k]] {
      assert order[k] != order[i];
    }
  }

  lemma PrintingDone(before: map<string, seq<Summary>>, sm: map<string, seq<Summary>>,
                     order: seq<string>, report: seq<seq<Row>>)
    requires Enumerates(order, before.Keys)
    requires Printing(before, sm, order, report, |order|)
    ensures forall m :: m in sm ==> Ranked(sm[m])
  {
    forall m | m in sm ensures Ranked(sm[m]) {
      var k :| 0 <= k < |order| && order[k] == m;
    }
  }
}
