/**
 * The aggregator: the `samples.reduce(...)` in `loaded` (index.js) folds one
 * group into one summary. Numbers are `Option<int>` with `None` for `NaN`, so
 * the fold propagates a malformed field the way JavaScript arithmetic does.
 */
module Aggregate {
  import opened Wrappers
  import opened Samples

  /** One row of the report before it is formatted: the statistics of one group. */
  datatype Summary = Summary(
    metric: string,
    version: string,
    count: Option<int>,
    millis: Option<int>,
    max: Option<int>,
    min: Option<int>,
    samples: Option<int>,
    lat: Option<real>)

  // ---------------------------------------------------------------------
  // JavaScript arithmetic with NaN

  /** `a + b`. */
  function Plus(a: Option<int>, b: Option<int>): Option<int> {
    if a.Some? && b.Some? then Some(a.value + b.value) else None
  }

  /** `Math.max(a, b)`. */
  function Larger(a: Option<int>, b: Option<int>): Option<int> {
    if a.Some? && b.Some? then Some(if a.value < b.value then b.value else a.value) else None
  }

  /** `Math.min(a, b)`. */
  function Smaller(a: Option<int>, b: Option<int>): Option<int> {
    if a.Some? && b.Some? then Some(if a.value < b.value then a.value else b.value) else None
  }

  /** A latency counts toward the sum only when it is truthy: present and not zero. */
  function Truthy(lat: Option<real>): real {
    if lat.Some? && lat.value != 0.0 then lat.value else 0.0
  }

  // ---------------------------------------------------------------------
  // Specification of the fold, field by field

  /** The number `field` picks out of each element, in order. */
  function Projected<T>(xs: seq<T>, field: T -> Option<int>): seq<Option<int>> {
    seq(|xs|, i requires 0 <= i < |xs| => field(xs[i]))
  }

  lemma ProjectedAppend<T>(xs: seq<T>, ys: seq<T>, field: T -> Option<int>)
    ensures Projected(xs + ys, field) == Projected(xs, field) + Projected(ys, field)
  {
  }

  /** The message counts of a group's samples. */
  function Counts(g: seq<Sample>): seq<Option<int>> {
    Projected(g, (e: Sample) => e.count)
  }

  /** The durations of a group's samples. */
  function Millis(g: seq<Sample>): seq<Option<int>> {
    Projected(g, (e: Sample) => e.millis)
  }

  /** The total of the numbers; `NaN` if one is. */
  function Sum(xs: seq<Option<int>>): Option<int> {
    if xs == [] then Some(0) else Plus(xs[0], Sum(xs[1..]))
  }

  /** The largest of 0 and the numbers (the accumulator's `max` starts at 0). */
  function Peak(xs: seq<Option<int>>): Option<int> {
    if xs == [] then Some(0) else Larger(xs[0], Peak(xs[1..]))
  }

  /** The smallest of the numbers; 0 for none (the accumulator's `min` starts at 0, then takes the first). */
  function Least(xs: seq<Option<int>>): Option<int> {
    if xs == [] then Some(0)
    else if |xs| == 1 then xs[0]
    else Smaller(xs[0], Least(xs[1..]))
  }

  /** The first number that is not 0 (`NaN` included); 0 if there is none. */
  function FirstNonzero(xs: seq<Option<int>>): Option<int> {
    if xs == [] then Some(0)
    else if xs[0] != Some(0) then xs[0]
    else FirstNonzero(xs[1..])
  }

  /** The sum of the truthy latencies. */
  function LatSum(g: seq<Sample>): real {
    if g == [] then 0.0 else Truthy(g[0].lat) + LatSum(g[1..])
  }

  /** The average latency: present when the sum is not zero, over the whole group. */
  function AverageLat(g: seq<Sample>): Option<real> {
    var total := LatSum(g);
    if total != 0.0 then
      assert g != [];
      Some(total / |g| as real)
    else None
  }

  /** The summary of the group (metric, version) with samples `g`. */
  function SummaryOf(metric: string, version: string, g: seq<Sample>): Summary {
    Summary(metric, version, Sum(Counts(g)), Sum(Millis(g)),
            Peak(Millis(g)), Least(Millis(g)), FirstNonzero(Counts(g)), AverageLat(g))
  }

  // ---------------------------------------------------------------------
  // Extending a group by one sample (what one step of the fold does)

  lemma {:induction false} SumSnoc(xs: seq<Option<int>>, x: Option<int>)
    ensures Sum(xs + [x]) == Plus(Sum(xs), x)
  {
    if xs != [] {
      assert (xs + [x])[1..] == xs[1..] + [x];
      SumSnoc(xs[1..], x);
    }
  }

  lemma {:induction false} PeakSnoc(xs: seq<Option<int>>, x: Option<int>)
    ensures Peak(xs + [x]) == Larger(Peak(xs), x)
  {
    if xs != [] {
      assert (xs + [x])[1..] == xs[1..] + [x];
      PeakSnoc(xs[1..], x);
    }
  }

  lemma {:induction false} LeastSnoc(xs: seq<Option<int>>, x: Option<int>)
    requires xs != []
    ensures Least(xs + [x]) == Smaller(Least(xs), x)
  {
    assert (xs + [x])[1..] == xs[1..] + [x];
    if |xs| > 1 {
      LeastSnoc(xs[1..], x);
    }
  }

  lemma {:induction false} FirstNonzeroSnoc(xs: seq<Option<int>>, x: Option<int>)
    ensures FirstNonzero(xs + [x]) == if FirstNonzero(xs) == Some(0) then x else FirstNonzero(xs)
  {
    if xs != [] {
      assert (xs + [x])[1..] == xs[1..] + [x];
      FirstNonzeroSnoc(xs[1..], x);
    }
  }

  lemma {:induction false} LatSumSnoc(g: seq<Sample>, e: Sample)
    ensures LatSum(g + [e]) == LatSum(g) + Truthy(e.lat)
  {
    if g != [] {
      assert (g + [e])[1..] == g[1..] + [e];
      LatSumSnoc(g[1..], e);
    }
  }

  // ---------------------------------------------------------------------
  // The fold itself

  /**
   * Lines 94-118 of index.js: fold the group into one accumulator, then turn
   * the latency sum into an average or drop it. (The float `rate` the source
   * stores at line 113 is overwritten before anything reads it.)
   */
  method Reduce(metric: string, version: string, g: seq<Sample>) returns (s: Summary)
    ensures s == SummaryOf(metric, version, g)
  {
    var count, millis, max, min, samples := Some(0), Some(0), Some(0), Some(0), Some(0);
    var lat := 0.0;
    var i := 0;
    while i < |g|
      invariant 0 <= i <= |g|
      invariant count == Sum(Counts(g[..i])) && millis == Sum(Millis(g[..i]))
      invariant max == Peak(Millis(g[..i]))
      invariant min == Least(Millis(g[..i]))
      invariant samples == FirstNonzero(Counts(g[..i]))
      invariant lat == LatSum(g[..i])
    {
      var e := g[i];
      assert g[..i + 1] == g[..i] + [e];
      assert Counts(g[..i + 1]) == Counts(g[..i]) + [e.count];
      assert Millis(g[..i + 1]) == Millis(g[..i]) + [e.millis];
      SumSnoc(Counts(g[..i]), e.count);
      SumSnoc(Millis(g[..i]), e.millis);
      PeakSnoc(Millis(g[..i]), e.millis);
      FirstNonzeroSnoc(Counts(g[..i]), e.count);
      LatSumSnoc(g[..i], e);
      if i == 0 {
        min := e.millis;
      } else {
        LeastSnoc(Millis(g[..i]), e.millis);
      }
      if samples == Some(0) {
        samples := e.count;
      }
      count := Plus(count, e.count);
      millis := Plus(millis, e.millis);
      max := Larger(max, e.millis);
      min := Smaller(min, e.millis);
      if e.lat.Some? && e.lat.value != 0.0 {
        lat := lat + e.lat.value;
      }
      i := i + 1;
    }
    assert g[..i] == g;
    var average := if lat != 0.0 then Some(lat / |g| as real) else None;
    s := Summary(metric, version, count, millis, max, min, samples, average);
  }
  // ---------------------------------------------------------------------
  // What the summary fields mean

  /** A total is `NaN` exactly when one of the numbers is. */
  lemma {:induction false} SumIsNaN(xs: seq<Option<int>>)
    ensures Sum(xs).None? <==> exists i :: 0 <= i < |xs| && xs[i].None?
  {
    if xs != [] {
      SumIsNaN(xs[1..]);
      if xs[0].Some? && Sum(xs[1..]).None? {
        var i :| 0 <= i < |xs[1..]| && xs[1..][i].None?;
        assert xs[i + 1].None?;
      }
      if exists i :: 0 <= i < |xs| && xs[i].None? {
        var i :| 0 <= i < |xs| && xs[i].None?;
        if i > 0 { assert xs[1..][i - 1].None?; }
      }
    }
  }

  lemma {:induction false} SumAppend(xs: seq<Option<int>>, ys: seq<Option<int>>)
    ensures Sum(xs + ys) == Plus(Sum(xs), Sum(ys))
  {
    if xs == [] {
      assert xs + ys == ys;
    } else {
      assert (xs + ys)[1..] == xs[1..] + ys;
      SumAppend(xs[1..], ys);
    }
  }

  /** The order of the samples does not change a total. */
  lemma {:induction false} SumPermutation(xs: seq<Option<int>>, ys: seq<Option<int>>)
    requires multiset(xs) == multiset(ys)
    ensures Sum(xs) == Sum(ys)
    decreases |xs|
  {
    if xs != [] {
      assert xs[0] in multiset(ys);
      var j :| 0 <= j < |ys| && ys[j] == xs[0];
      var rest := ys[..j] + ys[j + 1..];
      RemoveOne(xs, ys, j);
      SumPermutation(xs[1..], rest);
      SumRemove(ys, j);
    }
  }

  lemma {:induction false} RemoveOne<T>(xs: seq<T>, ys: seq<T>, j: nat)
    requires multiset(xs) == multiset(ys) && xs != [] && j < |ys| && ys[j] == xs[0]
    ensures multiset(xs[1..]) == multiset(ys[..j] + ys[j + 1..])
  {
    assert ys == ys[..j] + [ys[j]] + ys[j + 1..];
    assert xs == [xs[0]] + xs[1..];
    assert multiset(ys) == multiset(ys[..j]) + multiset([ys[j]]) + multiset(ys[j + 1..]);
    assert multiset(ys[..j] + ys[j + 1..]) == multiset(ys[..j]) + multiset(ys[j + 1..]);
    assert multiset(xs) == multiset([xs[0]]) + multiset(xs[1..]);
    assert multiset(xs[1..]) == multiset(xs) - multiset([xs[0]]);
  }

  lemma {:induction false} SumRemove(ys: seq<Option<int>>, j: nat)
    requires j < |ys|
    ensures Sum(ys) == Plus(ys[j], Sum(ys[..j] + ys[j + 1..]))
  {
    assert ys == ys[..j] + ([ys[j]] + ys[j + 1..]);
    SumAppend(ys[..j], [ys[j]] + ys[j + 1..]);
    SumAppend(ys[..j], ys[j + 1..]);
    assert ([ys[j]] + ys[j + 1..])[1..] == ys[j + 1..];
  }

  /**
   * With every `millis` a number, `max` is a number, at least 0, at least
   * every sample's `millis`, and is 0 or one of them.
   */
  lemma {:induction false} PeakIsMaximum(xs: seq<Option<int>>)
    requires forall i :: 0 <= i < |xs| ==> xs[i].Some?
    ensures Peak(xs).Some? && Peak(xs).value >= 0
    ensures forall i :: 0 <= i < |xs| ==> xs[i].value <= Peak(xs).value
    ensures Peak(xs).value == 0 || exists i :: 0 <= i < |xs| && xs[i] == Peak(xs)
  {
    if xs != [] {
      PeakIsMaximum(xs[1..]);
      var p := Peak(xs[1..]);
      if xs[0].value <= p.value && p.value != 0 {
        var i :| 0 <= i < |xs[1..]| && xs[1..][i] == p;
        assert xs[i + 1] == p;
      }
      forall i | 0 < i < |xs| ensures xs[i].value <= Peak(xs).value {
        assert xs[i] == xs[1..][i - 1];
      }
    }
  }

  /** One `NaN` among the `millis` makes `max` `NaN`, and so does nothing else. */
  lemma {:induction false} PeakIsNaN(xs: seq<Option<int>>)
    ensures Peak(xs).None? <==> exists i :: 0 <= i < |xs| && xs[i].None?
  {
    if xs != [] {
      PeakIsNaN(xs[1..]);
      if xs[0].Some? && Peak(xs[1..]).None? {
        var i :| 0 <= i < |xs[1..]| && xs[1..][i].None?;
        assert xs[i + 1].None?;
      }
      if exists i :: 0 <= i < |xs| && xs[i].None? {
        var i :| 0 <= i < |xs| && xs[i].None?;
        if i > 0 { assert xs[1..][i - 1].None?; }
      }
    }
  }

  /** For a group with numeric `millis`, `min` is the smallest of them. */
  lemma {:induction false} LeastIsMinimum(xs: seq<Option<int>>)
    requires xs != []
    requires forall i :: 0 <= i < |xs| ==> xs[i].Some?
    ensures Least(xs).Some?
    ensures forall i :: 0 <= i < |xs| ==> Least(xs).value <= xs[i].value
    ensures exists i :: 0 <= i < |xs| && xs[i] == Least(xs)
  {
    if |xs| > 1 {
      LeastIsMinimum(xs[1..]);
      var l := Least(xs[1..]);
      if l.value < xs[0].value {
        var i :| 0 <= i < |xs[1..]| && xs[1..][i] == l;
        assert xs[i + 1] == l;
      }
      forall i | 0 < i < |xs| ensures Least(xs).value <= xs[i].value {
        assert xs[i] == xs[1..][i - 1];
      }
    }
  }

  /** One `NaN` among the `millis` makes `min` `NaN`, and so does nothing else. */
  lemma {:induction false} LeastIsNaN(xs: seq<Option<int>>)
    ensures Least(xs).None? <==> exists i :: 0 <= i < |xs| && xs[i].None?
  {
    if |xs| > 1 {
      LeastIsNaN(xs[1..]);
      if xs[0].Some? && Least(xs[1..]).None? {
        var i :| 0 <= i < |xs[1..]| && xs[1..][i].None?;
        assert xs[i + 1].None?;
      }
      if exists i :: 0 <= i < |xs| && xs[i].None? {
        var i :| 0 <= i < |xs| && xs[i].None?;
        if i > 0 { assert xs[1..][i - 1].None?; }
      }
    }
  }

  /** `max` does not depend on the order of the samples. */
  lemma PeakPermutation(xs: seq<Option<int>>, ys: seq<Option<int>>)
    requires multiset(xs) == multiset(ys)
    ensures Peak(xs) == Peak(ys)
  {
    PeakIsNaN(xs);
    PeakIsNaN(ys);
    if forall i :: 0 <= i < |xs| ==> xs[i].Some? {
      AllNumbers(xs, ys);
      PeakBelow(xs, ys);
      PeakBelow(ys, xs);
    } else {
      var i :| 0 <= i < |xs| && xs[i].None?;
      Member(xs, ys, i);
    }
  }

  /** `min` does not depend on the order of the samples. */
  lemma LeastPermutation(xs: seq<Option<int>>, ys: seq<Option<int>>)
    requires multiset(xs) == multiset(ys)
    ensures Least(xs) == Least(ys)
  {
    LeastIsNaN(xs);
    LeastIsNaN(ys);
    assert |xs| == |multiset(xs)| == |multiset(ys)| == |ys|;
    if forall i :: 0 <= i < |xs| ==> xs[i].Some? {
      if xs != [] {
        AllNumbers(xs, ys);
        LeastAbove(xs, ys);
        LeastAbove(ys, xs);
      }
    } else {
      var i :| 0 <= i < |xs| && xs[i].None?;
      Member(xs, ys, i);
    }
  }

  /** An element of one arrangement is an element of any other. */
  lemma Member<T>(xs: seq<T>, ys: seq<T>, i: nat)
    requires multiset(xs) == multiset(ys) && i < |xs|
    ensures exists j :: 0 <= j < |ys| && ys[j] == xs[i]
  {
    assert xs[i] in multiset(ys);
  }

  lemma AllNumbers(xs: seq<Option<int>>, ys: seq<Option<int>>)
    requires multiset(xs) == multiset(ys)
    requires forall i :: 0 <= i < |xs| ==> xs[i].Some?
    ensures forall j :: 0 <= j < |ys| ==> ys[j].Some?
  {
    forall j | 0 <= j < |ys| ensures ys[j].Some? {
      Member(ys, xs, j);
    }
  }

  lemma PeakBelow(xs: seq<Option<int>>, ys: seq<Option<int>>)
    requires multiset(xs) == multiset(ys)
    requires forall i :: 0 <= i < |xs| ==> xs[i].Some?
    requires forall j :: 0 <= j < |ys| ==> ys[j].Some?
    ensures Peak(xs).Some? && Peak(ys).Some? && Peak(xs).value <= Peak(ys).value
  {
    PeakIsMaximum(xs);
    PeakIsMaximum(ys);
    if Peak(xs).value != 0 {
      var i :| 0 <= i < |xs| && xs[i] == Peak(xs);
      Member(xs, ys, i);
    }
  }

  lemma LeastAbove(xs: seq<Option<int>>, ys: seq<Option<int>>)
    requires multiset(xs) == multiset(ys) && xs != [] && ys != []
    requires forall i :: 0 <= i < |xs| ==> xs[i].Some?
    requires forall j :: 0 <= j < |ys| ==> ys[j].Some?
    ensures Least(xs).Some? && Least(ys).Some? && Least(ys).value <= Least(xs).value
  {
    LeastIsMinimum(xs);
    LeastIsMinimum(ys);
    var i :| 0 <= i < |xs| && xs[i] == Least(xs);
    Member(xs, ys, i);
  }

  /**
   * `samples` is the `count` of the first sample whose `count` is not 0 (a
   * `NaN` one included), or 0 when there is none: it is not the number of samples.
   */
  lemma {:induction false} FirstNonzeroIsFirst(xs: seq<Option<int>>)
    ensures || (FirstNonzero(xs) == Some(0) && forall i :: 0 <= i < |xs| ==> xs[i] == Some(0))
            || exists k :: 0 <= k < |xs| && xs[k] != Some(0) && FirstNonzero(xs) == xs[k]
                           && forall i :: 0 <= i < k ==> xs[i] == Some(0)
  {
    if xs != [] && xs[0] == Some(0) {
      FirstNonzeroIsFirst(xs[1..]);
      if FirstNonzero(xs[1..]) == Some(0) && forall i :: 0 <= i < |xs[1..]| ==> xs[1..][i] == Some(0) {
        forall i | 0 < i < |xs| ensures xs[i] == Some(0) {
          assert xs[i] == xs[1..][i - 1];
        }
      } else {
        var k :| 0 <= k < |xs[1..]| && xs[1..][k] != Some(0) && FirstNonzero(xs[1..]) == xs[1..][k]
                 && forall i :: 0 <= i < k ==> xs[1..][i] == Some(0);
        forall i | 0 < i < k + 1 ensures xs[i] == Some(0) {
          assert xs[i] == xs[1..][i - 1];
        }
        assert xs[k + 1] == xs[1..][k];
      }
    }
  }

  /** A concrete group of two runs: `samples` is the first run's message count, not 2. */
  lemma SamplesIsFirstCount()
    ensures var g := [Sample("pub", Some(1000), Some(500), "", "v1", None),
                      Sample("pub", Some(2000), Some(400), "", "v1", None)];
            SummaryOf("pub", "v1", g).samples == Some(1000)
  {
  }

  /** Samples without a truthy latency add nothing to the latency sum. */
  lemma {:induction false} LatSumOfNoLatency(g: seq<Sample>)
    requires forall i :: 0 <= i < |g| ==> Truthy(g[i].lat) == 0.0
    ensures LatSum(g) == 0.0 && AverageLat(g) == None
  {
    if g != [] {
      LatSumOfNoLatency(g[1..]);
    }
  }

  /**
   * With latencies that are never negative, the summary has an average
   * latency exactly when some sample carries a nonzero latency.
   */
  lemma {:induction false} AverageLatPresence(g: seq<Sample>)
    requires forall i :: 0 <= i < |g| ==> g[i].lat.Some? ==> g[i].lat.value >= 0.0
    ensures LatSum(g) >= 0.0
    ensures AverageLat(g).Some? <==> exists i :: 0 <= i < |g| && g[i].lat.Some? && g[i].lat.value != 0.0
  {
    if g != [] {
      AverageLatPresence(g[1..]);
      if exists i :: 0 <= i < |g| && g[i].lat.Some? && g[i].lat.value != 0.0 {
        var i :| 0 <= i < |g| && g[i].lat.Some? && g[i].lat.value != 0.0;
        if i > 0 { assert g[1..][i - 1] == g[i]; }
      }
      if LatSum(g[1..]) != 0.0 {
        var i :| 0 <= i < |g[1..]| && g[1..][i].lat.Some? && g[1..][i].lat.value != 0.0;
        assert g[i + 1] == g[1..][i];
      }
    }
  }

  /**
   * The average is taken over the whole group: a further sample without a
   * latency leaves the sum alone and lowers the average by the larger count.
   */
  lemma AverageOverWholeGroup(g: seq<Sample>, e: Sample)
    requires e.lat.None?
    requires AverageLat(g).Some?
    ensures AverageLat(g + [e]).Some?
    ensures AverageLat(g + [e]).value * (|g| + 1) as real == AverageLat(g).value * |g| as real
  {
    LatSumSnoc(g, e);
  }
}
