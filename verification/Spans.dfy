/** Context windows around match lines, merged into spans of lines to show. */
module Spans {
  import opened Numbers

  /** Zero-based lines `start..end`. */
  datatype Span = Span(start: nat, end: nat)
  {
    predicate Has(line: int) {
      start <= line < end
    }

    function Trim(count: nat): Span {
      Span(start, Min(end, count))
    }
  }

  /** The window around 1-based match line `line`, in the saturating arithmetic of the source. */
  function Window(line: nat, before: nat, after: nat): Span {
    var index := SaturatingSub(line, 1);
    Span(SaturatingSub(index, before), SaturatingAdd(SaturatingAdd(index, after), 1))
  }

  function Windows(lines: seq<nat>, before: nat, after: nat): (r: seq<Span>)
    ensures |r| == |lines| && forall i :: 0 <= i < |r| ==> r[i] == Window(lines[i], before, after)
  {
    seq(|lines|, i requires 0 <= i < |lines| => Window(lines[i], before, after))
  }

  /** One window more: it extends the last span when it overlaps or touches it. */
  function Absorb(spans: seq<Span>, window: Span): seq<Span> {
    var n := |spans|;
    if n > 0 && window.start <= spans[n - 1].end then
      spans[..n - 1] + [Span(spans[n - 1].start, Max(spans[n - 1].end, window.end))]
    else
      spans + [window]
  }

  function Merged(windows: seq<Span>): seq<Span> {
    var n := |windows|;
    if n == 0 then [] else Absorb(Merged(windows[..n - 1]), windows[n - 1])
  }

  method IncludedSpans(matchLines: seq<nat>, before: nat, after: nat) returns (spans: seq<Span>)
    ensures spans == Merged(Windows(matchLines, before, after))
  {
    spans := [];
    ghost var windows := Windows(matchLines, before, after);
    assert windows[..0] == [];
    for i := 0 to |matchLines|
      invariant spans == Merged(windows[..i])
    {
      assert windows[..i + 1][..i] == windows[..i];
      var index := SaturatingSub(matchLines[i], 1);
      var start := SaturatingSub(index, before);
      var end := SaturatingAdd(SaturatingAdd(index, after), 1);
      var n := |spans|;
      if n > 0 && start <= spans[n - 1].end {
        spans := spans[..n - 1] + [spans[n - 1].(end := Max(spans[n - 1].end, end))];
      } else {
        spans := spans + [Span(start, end)];
      }
    }
    assert windows[..|windows|] == windows;
  }

  ghost predicate InSome(spans: seq<Span>, line: int) {
    exists i :: 0 <= i < |spans| && spans[i].Has(line)
  }

  ghost predicate StartsAscend(windows: seq<Span>) {
    forall i, j :: 0 <= i < j < |windows| ==> windows[i].start <= windows[j].start
  }

  ghost predicate NoneEmpty(spans: seq<Span>) {
    forall i :: 0 <= i < |spans| ==> spans[i].start < spans[i].end
  }

  /** Ascending, with at least one line between any two spans. */
  ghost predicate Apart(spans: seq<Span>) {
    forall i, j :: 0 <= i < j < |spans| ==> spans[i].end < spans[j].start
  }

  ghost predicate StartBy(spans: seq<Span>, limit: nat) {
    forall i :: 0 <= i < |spans| ==> spans[i].start <= limit
  }

  lemma AbsorbKeepsApart(spans: seq<Span>, window: Span)
    requires NoneEmpty(spans) && Apart(spans) && window.start < window.end && StartBy(spans, window.start)
    ensures var r := Absorb(spans, window); NoneEmpty(r) && Apart(r) && StartBy(r, window.start)
  {
  }

  lemma AbsorbAddsLines(spans: seq<Span>, window: Span, line: int)
    requires window.start < window.end && StartBy(spans, window.start)
    ensures InSome(Absorb(spans, window), line) <==> InSome(spans, line) || window.Has(line)
  {
    var r, n := Absorb(spans, window), |spans|;
    var m := |r| - 1;
    if i :| 0 <= i < n && spans[i].Has(line) {
      assert r[i].Has(line);
    }
    if window.Has(line) {
      assert r[m].Has(line);
    }
    if i :| 0 <= i < |r| && r[i].Has(line) {
      if i < m {
        assert spans[i].Has(line);
      } else if m == n - 1 {
        assert spans[m].Has(line) || window.Has(line);
      }
    }
  }

  /** Merging windows whose starts ascend yields spans that are apart. */
  lemma {:induction false} MergedApart(windows: seq<Span>)
    requires StartsAscend(windows) && NoneEmpty(windows)
    ensures NoneEmpty(Merged(windows)) && Apart(Merged(windows))
    ensures |windows| > 0 ==> StartBy(Merged(windows), windows[|windows| - 1].start)
  {
    var n := |windows|;
    if n > 0 {
      MergedApart(windows[..n - 1]);
      AbsorbKeepsApart(Merged(windows[..n - 1]), windows[n - 1]);
    }
  }

  /** Merging neither adds nor loses a line. */
  lemma {:induction false} MergedCovers(windows: seq<Span>, line: int)
    requires StartsAscend(windows) && NoneEmpty(windows)
    ensures InSome(Merged(windows), line) <==> InSome(windows, line)
  {
    var n := |windows|;
    if n > 0 {
      var init, last := windows[..n - 1], windows[n - 1];
      MergedCovers(init, line);
      MergedApart(init);
      AbsorbAddsLines(Merged(init), last, line);
      if i :| 0 <= i < n && windows[i].Has(line) {
        assert i < n - 1 ==> init[i].Has(line);
      }
      if i :| 0 <= i < |init| && init[i].Has(line) {
        assert windows[i].Has(line);
      }
    }
  }

  function Trimmed(spans: seq<Span>, count: nat): (r: seq<Span>)
    ensures |r| == |spans| && forall i :: 0 <= i < |r| ==> r[i] == spans[i].Trim(count)
  {
    seq(|spans|, i requires 0 <= i < |spans| => spans[i].Trim(count))
  }

  /** Trimming after merging is merging trimmed windows, when every window starts inside. */
  lemma {:induction false} TrimCommutes(windows: seq<Span>, count: nat)
    requires forall i :: 0 <= i < |windows| ==> windows[i].start < count
    ensures Trimmed(Merged(windows), count) == Merged(Trimmed(windows, count))
    ensures forall i :: 0 <= i < |Merged(windows)| ==> Merged(windows)[i].start < count
  {
    var n := |windows|;
    if n > 0 {
      var init, last := windows[..n - 1], windows[n - 1];
      TrimCommutes(init, count);
      var spans := Merged(init);
      assert Trimmed(windows, count)[..n - 1] == Trimmed(init, count);
      AbsorbTrims(spans, last, count);
    }
  }

  lemma AbsorbTrims(spans: seq<Span>, window: Span, count: nat)
    requires window.start < count && forall i :: 0 <= i < |spans| ==> spans[i].start < count
    ensures Trimmed(Absorb(spans, window), count) == Absorb(Trimmed(spans, count), window.Trim(count))
    ensures forall i :: 0 <= i < |Absorb(spans, window)| ==> Absorb(spans, window)[i].start < count
  {
  }

  /** The match lines of a file with `count` searchable lines. */
  ghost predicate MatchLines(lines: seq<nat>, count: nat) {
    && (forall i, j :: 0 <= i < j < |lines| ==> lines[i] < lines[j])
    && forall i :: 0 <= i < |lines| ==> 1 <= lines[i] <= count
  }

  /** 1-based `line` is within the context of a match. */
  ghost predicate Near(lines: seq<nat>, before: nat, after: nat, line: int) {
    exists i :: 0 <= i < |lines| && lines[i] - before <= line <= lines[i] + after
  }

  lemma WindowsAscend(lines: seq<nat>, before: nat, after: nat, count: nat)
    requires MatchLines(lines, count) && count + after < U64_MAX
    ensures StartsAscend(Windows(lines, before, after)) && NoneEmpty(Windows(lines, before, after))
    ensures forall i :: 0 <= i < |lines| ==> Windows(lines, before, after)[i].start < count
  {
  }

  lemma WindowsAreContext(lines: seq<nat>, before: nat, after: nat, count: nat, line: nat)
    requires MatchLines(lines, count) && count + after < U64_MAX
    ensures InSome(Windows(lines, before, after), line) <==> Near(lines, before, after, line + 1)
  {
    var windows := Windows(lines, before, after);
    forall i | 0 <= i < |lines|
      ensures windows[i].Has(line) <==> lines[i] - before <= line + 1 <= lines[i] + after
    {
    }
  }

  lemma TrimKeepsInside(spans: seq<Span>, count: nat, line: nat)
    requires line < count
    ensures InSome(Trimmed(spans, count), line) <==> InSome(spans, line)
  {
    var trimmed := Trimmed(spans, count);
    forall i | 0 <= i < |spans|
      ensures spans[i].Has(line) <==> trimmed[i].Has(line)
    {
    }
  }

  /** The spans shown: apart, inside the file, none emptied by trimming. */
  lemma SpansApart(lines: seq<nat>, before: nat, after: nat, count: nat)
    requires MatchLines(lines, count) && count + after < U64_MAX
    ensures var spans := Trimmed(Merged(Windows(lines, before, after)), count);
      && NoneEmpty(spans) && Apart(spans)
      && forall i :: 0 <= i < |spans| ==> spans[i].end <= count
  {
    var windows := Windows(lines, before, after);
    WindowsAscend(lines, before, after, count);
    MergedApart(windows);
    TrimCommutes(windows, count);
    var merged := Merged(windows);
    var spans := Trimmed(merged, count);
    forall i, j | 0 <= i < j < |spans|
      ensures spans[i].end < spans[j].start
    {
      assert merged[i].end < merged[j].start;
    }
  }

  /** The spans hold exactly the lines near a match. */
  lemma SpansShowContext(lines: seq<nat>, before: nat, after: nat, count: nat, line: nat)
    requires MatchLines(lines, count) && count + after < U64_MAX && line < count
    ensures InSome(Trimmed(Merged(Windows(lines, before, after)), count), line) <==>
      Near(lines, before, after, line + 1)
  {
    var windows := Windows(lines, before, after);
    WindowsAscend(lines, before, after, count);
    MergedCovers(windows, line);
    TrimKeepsInside(Merged(windows), count, line);
    WindowsAreContext(lines, before, after, count, line);
  }
}
