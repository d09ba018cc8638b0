/**
 * The record parser: one CSV line `metric,count,millis,date,version[,latency]`
 * becomes one sample, and a file's text becomes the samples of its lines
 * (index.js, the `lines.forEach` body of `parse`).
 */
module Samples {
  import opened Wrappers
  import opened Strings

  /**
   * One benchmark measurement. `count` and `millis` are what `parseInt` gave
   * (`None` is `NaN`); `date` is the text handed to `Date.parse`, which nothing
   * downstream reads; `version` is the text of the fifth field, which is also
   * the key of the sample's group.
   */
  datatype Sample = Sample(
    metric: string,
    count: Option<int>,
    millis: Option<int>,
    date: string,
    version: string,
    lat: Option<real>)

  /**
   * `f[i]` as the parser's consumers see it: an index past the end is
   * `undefined`, which `parseInt`, `Date.parse` and property lookup all turn
   * into the text "undefined".
   */
  function Field(f: seq<string>, i: nat): string {
    if i < |f| then f[i] else "undefined"
  }

  /** The metric whose samples carry a round-trip latency. */
  const RequestReply: string := "rr"

  /**
   * The sample for one line. `parseFloat` is the host's float parser, left
   * abstract; a `NaN` from it is falsy and so behaves as 0.0 everywhere the
   * latency is used.
   */
  function ParseLine(line: string, parseFloat: string -> real): Sample {
    var f := Split(line, ',');
    Sample(
      f[0],
      ParseInt(Field(f, 1)),
      ParseInt(Field(f, 2)),
      Field(f, 3),
      Field(f, 4),
      if f[0] == RequestReply && |f| == 6 then Some(parseFloat(f[5])) else None)
  }

  /** How many times `c` occurs in `s`. */
  function Occurrences(c: char, s: string): nat {
    if s == [] then 0 else (if s[0] == c then 1 else 0) + Occurrences(c, s[1..])
  }

  /** `Split` yields one piece more than there are separators. */
  lemma {:induction false} SplitCount(s: string, sep: char)
    ensures |Split(s, sep)| == Occurrences(sep, s) + 1
  {
    if s != [] {
      SplitCount(s[1..], sep);
    }
  }

  /** The first piece is the text up to the first separator, or all of it. */
  lemma {:induction false} SplitFirst(s: string, sep: char)
    ensures var f0 := Split(s, sep)[0];
      |f0| <= |s| && f0 == s[..|f0|] && (|f0| == |s| || s[|f0|] == sep)
  {
    if s != [] && s[0] != sep {
      SplitFirst(s[1..], sep);
    }
  }

  /** The first piece is "rr" exactly when the text is "rr" or starts with "rr,". */
  lemma {:induction false} FirstFieldIsRequestReply(s: string)
    ensures Split(s, ',')[0] == RequestReply <==>
            s == RequestReply || (|s| >= 3 && s[..3] == RequestReply + ",")
  {
    var f0 := Split(s, ',')[0];
    SplitFirst(s, ',');
    if f0 == RequestReply && |s| != 2 {
      assert s[2] == ',';
      assert s[..3] == f0 + [','];
    }
    if s == RequestReply {
      WholeFieldIsRequestReply(s);
    }
    if |s| >= 3 && s[..3] == RequestReply + "," {
      LeadingFieldIsRequestReply(s);
    }
  }

  lemma {:induction false} WholeFieldIsRequestReply(s: string)
    requires s == RequestReply
    ensures Split(s, ',')[0] == RequestReply
  {
    var f0 := Split(s, ',')[0];
    SplitFirst(s, ',');
    assert |f0| == 2;
  }

  lemma {:induction false} LeadingFieldIsRequestReply(s: string)
    requires |s| >= 3 && s[..3] == RequestReply + ","
    ensures Split(s, ',')[0] == RequestReply
  {
    var f0 := Split(s, ',')[0];
    SplitFirst(s, ',');
    assert ',' !in f0;
    assert s[0] == 'r' && s[1] == 'r' && s[2] == ',';
    assert |f0| == 2;
    assert f0 == s[..2];
  }

  /**
   * A sample carries a latency exactly when its line starts with the metric
   * "rr" and has exactly six comma-separated fields (five commas).
   */
  lemma {:induction false} LatencyPresence(line: string, parseFloat: string -> real)
    ensures ParseLine(line, parseFloat).lat.Some? <==>
            (line == RequestReply || (|line| >= 3 && line[..3] == RequestReply + ","))
            && Occurrences(',', line) == 5
  {
    SplitCount(line, ',');
    FirstFieldIsRequestReply(line);
  }

  /**
   * A record written out as `metric,count,millis,date,version` reads back as
   * that record, with no latency (it has five fields, not six).
   */
  lemma RecordReadsBack(metric: string, count: int, millis: int, date: string, version: string,
                        parseFloat: string -> real)
    requires ',' !in metric && ',' !in date && ',' !in version
    ensures var e := ParseLine(Join([metric, IntToString(count), IntToString(millis), date, version], ','), parseFloat);
            e == Sample(metric, Some(count), Some(millis), date, version, None)
  {
    var pieces := [metric, IntToString(count), IntToString(millis), date, version];
    NoCommaInInteger(count);
    NoCommaInInteger(millis);
    SplitJoin(pieces, ',');
    ParseIntToString(count, "");
    ParseIntToString(millis, "");
    AppendEmpty(IntToString(count));
    AppendEmpty(IntToString(millis));
  }

  lemma NoCommaInInteger(v: int)
    ensures ',' !in IntToString(v)
  {
    var ds := Digits(if v < 0 then -v else v);
    assert ',' !in ds by {
      forall i | 0 <= i < |ds| ensures ds[i] != ',' {
        assert IsDigit(ds[i]);
      }
    }
  }

  /** What one line after the header contributes: nothing when it is empty, else its sample. */
  function LineSamples(line: string, parseFloat: string -> real): seq<Sample> {
    if line == "" then [] else [ParseLine(line, parseFloat)]
  }

  /** The samples of the lines after the header: one per line that is not empty. */
  function BodySamples(lines: seq<string>, parseFloat: string -> real): (es: seq<Sample>)
    ensures |es| <= |lines|
  {
    if lines == [] then []
    else LineSamples(lines[0], parseFloat) + BodySamples(lines[1..], parseFloat)
  }

  /** The samples of a file split into lines: line 0 is the header and is skipped. */
  function FileSamples(lines: seq<string>, parseFloat: string -> real): (es: seq<Sample>)
    ensures |lines| <= 1 ==> es == []
  {
    if |lines| <= 1 then [] else BodySamples(lines[1..], parseFloat)
  }

  /** A further line adds its one sample at the end, unless it is empty. */
  lemma {:induction false} BodySamplesAppend(lines: seq<string>, line: string, parseFloat: string -> real)
    ensures BodySamples(lines + [line], parseFloat) == BodySamples(lines, parseFloat) + LineSamples(line, parseFloat)
  {
    if lines == [] {
      assert [] + [line] == [line];
    } else {
      var whole := lines + [line];
      var rest := BodySamples(lines[1..], parseFloat);
      var head := LineSamples(lines[0], parseFloat);
      var tail := LineSamples(line, parseFloat);
      assert whole[0] == lines[0];
      assert whole[1..] == lines[1..] + [line];
      BodySamplesAppend(lines[1..], line, parseFloat);
      assert BodySamples(whole, parseFloat) == head + (rest + tail);
      assert BodySamples(lines, parseFloat) == head + rest;
      AppendAssoc(head, rest, tail);
    }
  }

  /**
   * Reading one more line: the header (index 0) and an empty line produce no
   * sample; any other line produces exactly one, appended after the others.
   */
  lemma {:induction false} FileSamplesAppend(lines: seq<string>, line: string, parseFloat: string -> real)
    ensures FileSamples(lines + [line], parseFloat) ==
            FileSamples(lines, parseFloat) + (if |lines| == 0 then [] else LineSamples(line, parseFloat))
  {
    if |lines| >= 1 {
      assert (lines + [line])[1..] == lines[1..] + [line];
      BodySamplesAppend(lines[1..], line, parseFloat);
      if |lines| == 1 {
        assert lines[1..] == [];
      }
    } else {
      assert FileSamples(lines, parseFloat) + [] == [];
    }
  }

  /** What the header line says does not matter. */
  lemma {:induction false} HeaderIgnored(h1: string, h2: string, body: seq<string>, parseFloat: string -> real)
    ensures FileSamples([h1] + body, parseFloat) == FileSamples([h2] + body, parseFloat)
  {
    assert ([h1] + body)[1..] == body == ([h2] + body)[1..];
  }

  /** An empty line anywhere after the header contributes nothing. */
  lemma {:induction false} EmptyLineIgnored(before: seq<string>, after: seq<string>, parseFloat: string -> real)
    ensures BodySamples(before + [""] + after, parseFloat) == BodySamples(before + after, parseFloat)
  {
    if before == [] {
      assert before + [""] + after == [""] + after;
      assert ([""] + after)[1..] == after;
      assert before + after == after;
    } else {
      assert (before + [""] + after)[0] == before[0];
      assert (before + [""] + after)[1..] == before[1..] + [""] + after;
      assert (before + after)[1..] == before[1..] + after;
      assert (before + after)[0] == before[0];
      EmptyLineIgnored(before[1..], after, parseFloat);
    }
  }
}
