/**
 * The ranker and reporter: `rate` and the sorting and row clean-up of
 * `print` (index.js). A rate is a finite number only when the summary's
 * totals are numbers and its time is positive; every member here asks for that.
 */
module Report {
  import opened Wrappers
  import opened Strings
  import opened Aggregate

  /** A summary whose rate `count*1000 / millis` is a finite number. */
  predicate Rated(s: Summary) {
    s.count.Some? && s.millis.Some? && s.millis.value > 0
  }

  predicate AllRated(xs: seq<Summary>) {
    forall i :: 0 <= i < |xs| ==> Rated(xs[i])
  }

  /** `count*1000 / millis`, messages per second, as an exact fraction. */
  function RateOf(s: Summary): real
    requires Rated(s)
  {
    (s.count.value * 1000) as real / s.millis.value as real
  }

  /** `Math.floor(count*1000 / millis)`: the whole messages per second. */
  function FlooredRate(s: Summary): (q: int)
    requires Rated(s)
    ensures q as real <= RateOf(s) < (q + 1) as real
  {
    var n, m := s.count.value * 1000, s.millis.value;
    var q := n / m;
    assert q * m <= n < (q + 1) * m;
    FractionBounds(n, m, q);
    q
  }

  lemma FractionBounds(n: int, m: int, q: int)
    requires m > 0 && q * m <= n < (q + 1) * m
    ensures q as real <= n as real / m as real < (q + 1) as real
  {
    assert (q * m) as real == q as real * m as real;
    assert ((q + 1) * m) as real == (q + 1) as real * m as real;
  }

  // ---------------------------------------------------------------------
  // s.replace(/\B(?=(\d{3})+(?!\d))/g, ",")

  /** A character the regular expression counts as part of a word. */
  predicate IsWordChar(c: char) {
    ('a' <= c <= 'z') || ('A' <= c <= 'Z') || IsDigit(c) || c == '_'
  }

  /** `\b` at position `p`, between `s[p-1]` and `s[p]`. */
  predicate AtWordBoundary(s: string, p: nat)
    requires p <= |s|
  {
    (p > 0 && IsWordChar(s[p - 1])) != (p < |s| && IsWordChar(s[p]))
  }

  /** `(?=(\d{3})+(?!\d))` at position `p`: the digits from `p` on come in complete threes. */
  predicate GroupsOfThreeAhead(s: string, p: nat)
    requires p <= |s|
  {
    var run := DigitPrefix(s[p..]);
    run > 0 && run % 3 == 0
  }

  /** The empty match of the pattern at position `p`, where a comma goes. */
  predicate CommaAt(s: string, p: nat)
    requires p <= |s|
  {
    !AtWordBoundary(s, p) && GroupsOfThreeAhead(s, p)
  }

  /** The replacement applied to every position from `p` on. */
  function ReplaceFrom(s: string, p: nat): string
    requires p <= |s|
    decreases |s| - p
  {
    (if CommaAt(s, p) then "," else "")
    + (if p < |s| then [s[p]] + ReplaceFrom(s, p + 1) else "")
  }

  /** The global replacement: a comma at every position the pattern matches. */
  function InsertCommas(s: string): string {
    ReplaceFrom(s, 0)
  }

  /** The reference: digits with a comma before every complete group of three, counted from the right. */
  function Grouped(ds: string): string {
    if |ds| <= 3 then ds else Grouped(ds[..|ds| - 3]) + "," + ds[|ds| - 3..]
  }

  /** `rate(s)` of index.js: the floored rate with thousands commas, then " msgs/sec". */
  function FormatRate(s: Summary): string
    requires Rated(s)
  {
    InsertCommas(IntToString(FlooredRate(s))) + " msgs/sec"
  }

  // ---------------------------------------------------------------------
  // The regular expression on a printed integer

  /** The replacement on a digit string, position by position: a comma inside, before complete threes. */
  function GroupFrom(ds: string, p: nat): string
    requires p <= |ds|
    decreases |ds| - p
  {
    if p == |ds| then ""
    else (if 0 < p && (|ds| - p) % 3 == 0 then [',', ds[p]] else [ds[p]]) + GroupFrom(ds, p + 1)
  }

  lemma AllDigitsPrefix(ds: string)
    requires AllDigits(ds)
    ensures DigitPrefix(ds) == |ds|
  {
    DigitPrefixOf(ds, "");
    assert ds + "" == ds;
  }

  /** On an optional minus sign followed by digits, the regular expression does what `GroupFrom` says. */
  lemma {:induction false} ReplaceOnNumber(sign: string, ds: string, q: nat)
    requires sign == "" || sign == "-"
    requires ds != [] && AllDigits(ds)
    requires |sign| <= q <= |sign| + |ds|
    ensures ReplaceFrom(sign + ds, q) == GroupFrom(ds, q - |sign|)
    decreases |sign| + |ds| - q
  {
    if q < |sign| + |ds| {
      ReplaceOnNumber(sign, ds, q + 1);
      ReplaceStepOnNumber(sign, ds, q);
    } else {
      ReplaceAtEnd(sign + ds);
    }
  }

  /** Nothing follows the end of the text, so no comma goes there. */
  lemma ReplaceAtEnd(s: string)
    ensures ReplaceFrom(s, |s|) == ""
  {
    assert s[|s|..] == "";
    assert !GroupsOfThreeAhead(s, |s|);
  }

  lemma ReplaceStepOnNumber(sign: string, ds: string, q: nat)
    requires sign == "" || sign == "-"
    requires ds != [] && AllDigits(ds)
    requires |sign| <= q < |sign| + |ds|
    requires ReplaceFrom(sign + ds, q + 1) == GroupFrom(ds, q + 1 - |sign|)
    ensures ReplaceFrom(sign + ds, q) == GroupFrom(ds, q - |sign|)
  {
    var t := sign + ds;
    var p := q - |sign|;
    BoundaryOnNumber(sign, ds, q);
    LookaheadOnNumber(sign, ds, q);
    assert CommaAt(t, q) <==> 0 < p && (|ds| - p) % 3 == 0;
    assert t[q] == ds[p];
    ReplaceFromStep(t, q);
    GroupFromStep(ds, p);
  }

  /** One position of the replacement: the comma if the pattern matches there, then the character. */
  lemma ReplaceFromStep(s: string, q: nat)
    requires q < |s|
    ensures ReplaceFrom(s, q) == (if CommaAt(s, q) then [',', s[q]] else [s[q]]) + ReplaceFrom(s, q + 1)
  {
    var c := if CommaAt(s, q) then "," else "";
    AppendAssoc(c, [s[q]], ReplaceFrom(s, q + 1));
  }

  lemma GroupFromStep(ds: string, p: nat)
    requires p < |ds|
    ensures GroupFrom(ds, p) == (if 0 < p && (|ds| - p) % 3 == 0 then [',', ds[p]] else [ds[p]]) + GroupFrom(ds, p + 1)
  {
  }

  /** Inside such a number `\B` holds strictly between two digits, and nowhere else. */
  lemma BoundaryOnNumber(sign: string, ds: string, q: nat)
    requires sign == "" || sign == "-"
    requires ds != [] && AllDigits(ds)
    requires |sign| <= q <= |sign| + |ds|
    ensures !AtWordBoundary(sign + ds, q) <==> |sign| < q < |sign| + |ds|
  {
    var t := sign + ds;
    var p := q - |sign|;
    if p == 0 {
      assert t[q] == ds[0];
      assert q > 0 ==> t[q - 1] == '-';
    } else if p < |ds| {
      assert t[q - 1] == ds[p - 1] && t[q] == ds[p];
    } else {
      assert t[q - 1] == ds[p - 1];
    }
  }

  /** Inside such a number the lookahead holds where a nonzero multiple of three digits follows. */
  lemma LookaheadOnNumber(sign: string, ds: string, q: nat)
    requires AllDigits(ds)
    requires |sign| <= q <= |sign| + |ds|
    ensures GroupsOfThreeAhead(sign + ds, q) <==>
            q < |sign| + |ds| && (|sign| + |ds| - q) % 3 == 0
  {
    var p := q - |sign|;
    assert (sign + ds)[q..] == ds[p..];
    AllDigitsPrefix(ds[p..]);
  }

  /** Fewer than four digits get no comma. */
  lemma {:induction false} GroupFromShort(ds: string, p: nat)
    requires |ds| <= 3 && p <= |ds|
    ensures GroupFrom(ds, p) == ds[p..]
    decreases |ds| - p
  {
    if p < |ds| {
      GroupFromShort(ds, p + 1);
      assert ds[p..] == [ds[p]] + ds[p + 1..];
    }
  }

  /** Before the last three digits, the positional replacement splits off ",ddd". */
  lemma {:induction false} GroupFromSplit(ds: string, p: nat)
    requires |ds| > 3 && p <= |ds| - 3
    ensures GroupFrom(ds, p) == GroupFrom(ds[..|ds| - 3], p) + "," + ds[|ds| - 3..]
    decreases |ds| - p
  {
    if p == |ds| - 3 {
      GroupFromLastThree(ds);
    } else {
      GroupFromSplit(ds, p + 1);
      GroupFromSplitStep(ds, p);
    }
  }

  lemma GroupFromSplitStep(ds: string, p: nat)
    requires |ds| > 3 && p < |ds| - 3
    requires GroupFrom(ds, p + 1) == GroupFrom(ds[..|ds| - 3], p + 1) + "," + ds[|ds| - 3..]
    ensures GroupFrom(ds, p) == GroupFrom(ds[..|ds| - 3], p) + "," + ds[|ds| - 3..]
  {
    var n := |ds|;
    var a := ds[..n - 3];
    var rest := GroupFrom(a, p + 1);
    assert a[p] == ds[p];
    assert (n - p) % 3 == (|a| - p) % 3;
    var c := if 0 < p && (n - p) % 3 == 0 then [',', ds[p]] else [ds[p]];
    assert GroupFrom(ds, p) == c + GroupFrom(ds, p + 1);
    assert GroupFrom(a, p) == c + rest;
    AppendAssoc(c, rest + ",", ds[n - 3..]);
    AppendAssoc(c, rest, ",");
  }

  /** The last three digits of a longer number follow their comma. */
  lemma GroupFromLastThree(ds: string)
    requires |ds| > 3
    ensures GroupFrom(ds, |ds| - 3) == GroupFrom(ds[..|ds| - 3], |ds| - 3) + "," + ds[|ds| - 3..]
  {
    var n := |ds|;
    var x, y, z := ds[n - 3], ds[n - 2], ds[n - 1];
    assert GroupFrom(ds, n - 1) == [z] + GroupFrom(ds, n);
    AppendEmpty([z]);
    assert GroupFrom(ds, n - 2) == [y] + [z];
    assert GroupFrom(ds, n - 3) == [',', x] + [y, z];
    assert ds[n - 3..] == [x, y, z];
    assert GroupFrom(ds[..n - 3], n - 3) == "";
    AppendEmpty(",");
  }

  /** The positional description and the grouping from the right agree. */
  lemma {:induction false} GroupFromIsGrouped(ds: string)
    ensures GroupFrom(ds, 0) == Grouped(ds)
    decreases |ds|
  {
    if |ds| <= 3 {
      GroupFromShort(ds, 0);
    } else {
      GroupFromSplit(ds, 0);
      GroupFromIsGrouped(ds[..|ds| - 3]);
    }
  }

  /** The regular expression puts a comma before every complete group of three digits from the right. */
  lemma CommasOnInteger(v: int)
    ensures InsertCommas(IntToString(v)) ==
            (if v < 0 then "-" else "") + Grouped(Digits(if v < 0 then -v else v))
  {
    var ds := Digits(if v < 0 then -v else v);
    GroupFromIsGrouped(ds);
    if v < 0 {
      var t := "-" + ds;
      ReplaceOnNumber("-", ds, 1);
      assert !CommaAt(t, 0) by {
        assert t[0..] == t;
        assert !IsDigit(t[0]);
      }
      assert t[0] == '-';
      assert ReplaceFrom(t, 0) == "-" + ReplaceFrom(t, 1);
    } else {
      ReplaceOnNumber("", ds, 0);
      assert "" + ds == ds;
    }
  }

  // ---------------------------------------------------------------------
  // Reading a rate back

  /** The text without its commas. */
  function Uncomma(s: string): (r: string)
    ensures ',' !in r && |r| <= |s|
  {
    if s == [] then "" else (if s[0] == ',' then "" else [s[0]]) + Uncomma(s[1..])
  }

  lemma {:induction false} UncommaAppend(a: string, b: string)
    ensures Uncomma(a + b) == Uncomma(a) + Uncomma(b)
  {
    if a == [] {
      assert a + b == b;
    } else {
      var head := if a[0] == ',' then "" else [a[0]];
      assert (a + b)[0] == a[0];
      assert (a + b)[1..] == a[1..] + b;
      UncommaAppend(a[1..], b);
      assert Uncomma(a + b) == head + (Uncomma(a[1..]) + Uncomma(b));
      assert Uncomma(a) == head + Uncomma(a[1..]);
    }
  }

  lemma {:induction false} UncommaNone(s: string)
    requires ',' !in s
    ensures Uncomma(s) == s
  {
    if s != [] {
      assert ',' !in s[1..];
      UncommaNone(s[1..]);
      assert [s[0]] + s[1..] == s;
    }
  }

  lemma UncommaTrailingComma(s: string)
    ensures Uncomma(s + ",") == Uncomma(s)
  {
    UncommaAppend(s, ",");
    assert ","[1..] == "";
    assert Uncomma(s) + "" == Uncomma(s);
  }

  lemma UncommaDigits(ds: string)
    requires AllDigits(ds)
    ensures Uncomma(ds) == ds
  {
    UncommaNone(ds);
  }

  /** Dropping the commas from the grouped digits gives the digits back. */
  lemma {:induction false} UncommaGrouped(ds: string)
    requires AllDigits(ds)
    ensures Uncomma(Grouped(ds)) == ds
    decreases |ds|
  {
    if |ds| <= 3 {
      UncommaNone(ds);
    } else {
      var a, b := ds[..|ds| - 3], ds[|ds| - 3..];
      var g := Grouped(a);
      assert Grouped(ds) == (g + ",") + b;
      assert AllDigits(a) && AllDigits(b);
      UncommaGrouped(a);
      UncommaAppend(g + ",", b);
      UncommaTrailingComma(g);
      UncommaDigits(b);
      TakeDrop(ds, |ds| - 3);
    }
  }

  /** The grouped digits hold a comma exactly when there are more than three digits. */
  lemma {:induction false} GroupedHasComma(ds: string)
    requires AllDigits(ds)
    ensures ',' in Grouped(ds) <==> |ds| > 3
    decreases |ds|
  {
    if |ds| > 3 {
      var g := Grouped(ds);
      assert g[|Grouped(ds[..|ds| - 3])|] == ',';
    } else {
      assert forall i :: 0 <= i < |ds| ==> ds[i] != ',';
    }
  }

  /** A number has more than three digits exactly when it is at least 1000. */
  lemma DigitsLength(n: nat)
    ensures |Digits(n)| > 3 <==> n >= 1000
  {
    if n >= 10 {
      DigitsLength(n / 10);
      if n / 10 >= 10 {
        DigitsLength(n / 100);
      }
    }
  }

  /**
   * Removing the commas and the " msgs/sec" suffix from `rate(s)` gives the
   * floored rate as `toString` prints it, and `parseInt` reads it back.
   */
  lemma RateReadsBack(s: Summary)
    requires Rated(s)
    ensures var r := FormatRate(s);
            |r| >= 9 && r[|r| - 9..] == " msgs/sec"
            && Uncomma(r[..|r| - 9]) == IntToString(FlooredRate(s))
            && ParseInt(Uncomma(r[..|r| - 9])) == Some(FlooredRate(s))
  {
    var q := FlooredRate(s);
    var body := InsertCommas(IntToString(q));
    var r := FormatRate(s);
    assert r[..|r| - 9] == body && r[|r| - 9..] == " msgs/sec";
    UncommaInteger(q);
    ParseIntToString(q, "");
    AppendEmpty(IntToString(q));
  }

  /** Dropping the commas from a printed integer with its thousands commas gives the printed integer. */
  lemma UncommaInteger(v: int)
    ensures Uncomma(InsertCommas(IntToString(v))) == IntToString(v)
  {
    CommasOnInteger(v);
    var ds := Digits(if v < 0 then -v else v);
    UncommaGrouped(ds);
    if v < 0 {
      UncommaAppend("-", Grouped(ds));
      assert Uncomma("-") == "-";
    } else {
      AppendEmpty(Grouped(ds));
    }
  }

  /** `rate(s)` has a comma exactly when the floored rate has four or more digits. */
  lemma RateHasComma(s: Summary)
    requires Rated(s)
    ensures ',' in FormatRate(s) <==> FlooredRate(s) >= 1000 || FlooredRate(s) <= -1000
  {
    var q := FlooredRate(s);
    var n := if q < 0 then -q else q;
    CommasOnInteger(q);
    GroupedHasComma(Digits(n));
    DigitsLength(n);
    var body := InsertCommas(IntToString(q));
    assert FormatRate(s) == body + " msgs/sec";
    assert ',' in FormatRate(s) <==> ',' in body;
    if q < 0 {
      assert body == "-" + Grouped(Digits(n));
    } else {
      assert body == Grouped(Digits(n));
    }
  }

  // ---------------------------------------------------------------------
  // Ranking

  /** The sort comparator `(b.count*1000 / b.millis) - (a.count*1000 / a.millis)`. */
  function Compare(a: Summary, b: Summary): real
    requires Rated(a) && Rated(b)
  {
    RateOf(b) - RateOf(a)
  }

  /** The comparator's sign is that of a cross-multiplication of integers. */
  lemma CompareByCrossMultiplication(a: Summary, b: Summary)
    requires Rated(a) && Rated(b)
    ensures Compare(a, b) > 0.0 <==> a.count.value * b.millis.value < b.count.value * a.millis.value
    ensures Compare(a, b) == 0.0 <==> a.count.value * b.millis.value == b.count.value * a.millis.value
  {
    var x, y := a.millis.value as real, b.millis.value as real;
    var ca, cb := (a.count.value * 1000) as real, (b.count.value * 1000) as real;
    assert RateOf(a) == ca / x && RateOf(b) == cb / y;
    assert ca / x * (x * y) == ca * y;
    assert cb / y * (x * y) == cb * x;
    assert (a.count.value * b.millis.value * 1000) as real == ca * y;
    assert (b.count.value * a.millis.value * 1000) as real == cb * x;
  }

  /** The rate of a rated summary; the sort only ever looks at rated ones. */
  function Key(s: Summary): real {
    if Rated(s) then RateOf(s) else 0.0
  }

  /** Non-increasing in rate: what the sort with that comparator produces. */
  ghost predicate Ranked(xs: seq<Summary>) {
    forall i, j :: 0 <= i < j < |xs| ==> Key(xs[i]) >= Key(xs[j])
  }

  /**
   * `summaries[metric].sort(...)` (line 140), as an insertion sort: the array
   * ends non-increasing in rate and holds the same summaries.
   */
  method SortByRate(a: array<Summary>)
    requires AllRated(a[..])
    modifies a
    ensures AllRated(a[..]) && Ranked(a[..])
    ensures multiset(a[..]) == multiset(old(a[..]))
  {
    var i := 1;
    while i < a.Length
      invariant a.Length == 0 || 1 <= i <= a.Length
      invariant AllRated(a[..])
      invariant RankedPrefix(a[..], i)
      invariant multiset(a[..]) == multiset(old(a[..]))
    {
      InsertAt(a, i);
      i := i + 1;
    }
  }

  /** The first `n` elements are non-increasing in rate. */
  ghost predicate RankedPrefix(xs: seq<Summary>, n: int) {
    forall p, q :: 0 <= p < q < n && q < |xs| ==> Key(xs[p]) >= Key(xs[q])
  }

  /** One pass of the insertion sort: move `a[i]` left past every summary of lower rate. */
  method InsertAt(a: array<Summary>, i: nat)
    requires 1 <= i < a.Length
    requires AllRated(a[..]) && RankedPrefix(a[..], i)
    modifies a
    ensures AllRated(a[..]) && RankedPrefix(a[..], i + 1)
    ensures multiset(a[..]) == multiset(old(a[..]))
    ensures multiset(a[..i + 1]) == multiset(old(a[..i + 1]))
    ensures a[i + 1..] == old(a[i + 1..])
  {
    ghost var orig := a[..];
    ghost var xs := orig;
    var j := i;
    InsertingStart(xs, i);
    while j > 0 && Compare(a[j - 1], a[j]) > 0.0
      invariant 0 <= j <= i && a[..] == xs
      invariant AllRated(xs) && Inserting(xs, i, j)
      invariant multiset(xs) == multiset(orig) && xs[i + 1..] == orig[i + 1..]
    {
      InsertingStep(xs, i, j);
      Swap(a, j - 1);
      SwapBelow(xs, a[..], j - 1, i + 1);
      xs := a[..];
      j := j - 1;
    }
    InsertingDone(xs, i, j);
    PrefixMultiset(orig, xs, i + 1);
  }

  /**
   * Midway through a pass that moves the summary now at `j` left: the others
   * up to `i` are still in order, and the moving one outranks all it passed.
   */
  ghost predicate Inserting(xs: seq<Summary>, i: int, j: int)
    requires 0 <= j <= i < |xs|
  {
    && (forall p, q :: 0 <= p < q <= i && p != j && q != j ==> Key(xs[p]) >= Key(xs[q]))
    && (forall q :: j < q <= i ==> Key(xs[j]) > Key(xs[q]))
  }

  lemma InsertingStart(xs: seq<Summary>, i: int)
    requires 0 <= i < |xs| && RankedPrefix(xs, i)
    ensures Inserting(xs, i, i)
  {
  }

  lemma InsertingStep(xs: seq<Summary>, i: int, j: int)
    requires 0 < j <= i < |xs| && Inserting(xs, i, j)
    requires AllRated(xs) && Compare(xs[j - 1], xs[j]) > 0.0
    ensures Inserting(xs[j - 1 := xs[j]][j := xs[j - 1]], i, j - 1)
  {
  }

  lemma InsertingDone(xs: seq<Summary>, i: int, j: int)
    requires 0 <= j <= i < |xs| && Inserting(xs, i, j) && AllRated(xs)
    requires j == 0 || Compare(xs[j - 1], xs[j]) <= 0.0
    ensures RankedPrefix(xs, i + 1)
  {
  }

  /** Swapping two neighbours below `n` leaves everything from `n` on in place. */
  lemma SwapBelow(pre: seq<Summary>, post: seq<Summary>, k: nat, n: nat)
    requires k + 1 < n <= |pre|
    requires post == pre[k := pre[k + 1]][k + 1 := pre[k]]
    ensures post[n..] == pre[n..]
  {
  }

  /** With the same multiset overall and the same suffix from `n`, the first `n` elements hold the same multiset. */
  lemma PrefixMultiset(orig: seq<Summary>, cur: seq<Summary>, n: nat)
    requires n <= |orig| == |cur|
    requires multiset(cur) == multiset(orig) && cur[n..] == orig[n..]
    ensures multiset(cur[..n]) == multiset(orig[..n])
  {
    assert cur == cur[..n] + cur[n..];
    assert orig == orig[..n] + orig[n..];
    var front, back := multiset(cur[..n]), multiset(cur[n..]);
    forall x ensures front[x] == multiset(orig[..n])[x] {
      assert (front + back)[x] == front[x] + back[x];
      assert (multiset(orig[..n]) + back)[x] == multiset(orig[..n])[x] + back[x];
    }
  }

  /** Exchange two neighbours. */
  method Swap(a: array<Summary>, k: nat)
    requires k + 1 < a.Length
    modifies a
    ensures a[..] == old(a[..])[k := old(a[k + 1])][k + 1 := old(a[k])]
    ensures multiset(a[..]) == multiset(old(a[..]))
    ensures AllRated(old(a[..])) ==> AllRated(a[..])
  {
    a[k], a[k + 1] := a[k + 1], a[k];
  }

  /** One row of the printed table: the summary without `count`, `millis` and `metric`, with `rate`. */
  datatype Row = Row(
    version: string,
    max: Option<int>,
    min: Option<int>,
    samples: Option<int>,
    lat: Option<real>,
    rate: string)

  /** Lines 144-147: set `rate` to `rate(s)` and delete `count`, `millis` and `metric`. */
  function ToRow(s: Summary): Row
    requires Rated(s)
  {
    Row(s.version, s.max, s.min, s.samples, s.lat, FormatRate(s))
  }
}
