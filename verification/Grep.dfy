/** Grep sections: which lines are shown, how they are marked, and the shared match budget. */
module Grep {
  import opened Numbers
  import opened Text
  import opened Batch
  import opened Protocol
  import opened Snapshots
  import opened Tokens
  import opened Render
  import opened Spans

  datatype OutputMode = Content | FilesWithMatches | Count

  datatype FileHit = FileHit(rel: Bytes, header: Bytes, body: Bytes, matches: nat)

  const COLON: byte := 58
  const DASH: byte := 45

  /** The row between two lines that are not neighbours. */
  const GAP: Bytes := [DASH, DASH, LF]

  // ---------------------------------------------------------------- what a section should show

  /** Lines the searcher numbers: a final LF starts no line there. */
  function Searchable(text: Bytes): nat {
    if |text| == 0 || text[|text| - 1] == LF then SaturatingSub(LineCount(text), 1) else LineCount(text)
  }

  /** Lines `1..=last` near a match, in order. */
  ghost function Shown(lines: seq<nat>, before: nat, after: nat, last: nat): seq<nat> {
    if last == 0 then []
    else Shown(lines, before, after, last - 1) + (if Near(lines, before, after, last) then [last] else [])
  }

  /** `LINE@BYTE:CONTENT` for a match and `LINE@BYTE-CONTENT` for context. */
  function RenderHitLine(text: Bytes, matched: seq<nat>, line: nat): Bytes
    requires 1 <= line <= LineCount(text)
  {
    BoundariesAscend(text);
    var start, end := Boundaries(text)[line - 1], Boundaries(text)[line];
    Decimal(line) + [AT_SIGN] + Decimal(start) + [if line in matched then COLON else DASH]
    + text[start..DisplayEnd(text, start, end)] + [LF]
  }

  predicate LinesOf(text: Bytes, lines: seq<nat>) {
    forall i :: 0 <= i < |lines| ==> 1 <= lines[i] <= LineCount(text)
  }

  /** One row per line, and a gap row wherever the line numbers jump. */
  function Body(text: Bytes, matched: seq<nat>, lines: seq<nat>): Bytes
    requires LinesOf(text, lines)
  {
    var n := |lines|;
    if n == 0 then []
    else
      Body(text, matched, lines[..n - 1])
      + (if n > 1 && lines[n - 1] != lines[n - 2] + 1 then GAP else [])
      + RenderHitLine(text, matched, lines[n - 1])
  }

  /** A gap row is due before the last of these lines. */
  predicate GapBefore(lines: seq<nat>)
    requires |lines| > 0
  {
    |lines| > 1 && lines[|lines| - 1] != lines[|lines| - 2] + 1
  }

  lemma {:induction false} BodyStep(text: Bytes, matched: seq<nat>, lines: seq<nat>)
    requires LinesOf(text, lines) && |lines| > 0
    ensures var n := |lines|;
      Body(text, matched, lines) == Body(text, matched, lines[..n - 1]) +
        (if GapBefore(lines) then GAP else []) + RenderHitLine(text, matched, lines[n - 1])
  {
  }

  lemma {:induction false} ShownInRange(text: Bytes, lines: seq<nat>, before: nat, after: nat, last: nat)
    requires last <= LineCount(text)
    ensures LinesOf(text, Shown(lines, before, after, last))
    ensures forall i :: 0 <= i < |Shown(lines, before, after, last)| ==> Shown(lines, before, after, last)[i] <= last
  {
    if last > 0 {
      ShownInRange(text, lines, before, after, last - 1);
    }
  }

  ghost function SectionBody(text: Bytes, matched: seq<nat>, before: nat, after: nat): Bytes {
    LineStartsExact(text);
    ShownInRange(text, matched, before, after, Searchable(text));
    Body(text, matched, Shown(matched, before, after, Searchable(text)))
  }

  // ---------------------------------------------------------------- accounting

  function CountMatches(lines: seq<nat>, matched: seq<nat>): nat {
    var n := |lines|;
    if n == 0 then 0 else CountMatches(lines[..n - 1], matched) + (if lines[n - 1] in matched then 1 else 0)
  }

  /** Matches not after line `last`. */
  function MatchesUpTo(matched: seq<nat>, last: nat): nat {
    var n := |matched|;
    if n == 0 then 0 else MatchesUpTo(matched[..n - 1], last) + (if matched[n - 1] <= last then 1 else 0)
  }

  lemma {:induction false} OneMatchMore(matched: seq<nat>, last: nat, count: nat)
    requires MatchLines(matched, count) && last > 0
    ensures MatchesUpTo(matched, last) == MatchesUpTo(matched, last - 1) + (if last in matched then 1 else 0)
  {
    var n := |matched|;
    if n > 0 {
      var init := matched[..n - 1];
      OneMatchMore(init, last, count);
      assert last in matched <==> last in init || last == matched[n - 1];
      assert matched[n - 1] !in init;
      if last in init {
        assert last < matched[n - 1];
      }
    }
  }

  lemma {:induction false} AllMatchesUpTo(matched: seq<nat>, last: nat)
    ensures (forall i :: 0 <= i < |matched| ==> matched[i] <= last) ==> MatchesUpTo(matched, last) == |matched|
    ensures last == 0 && (forall i :: 0 <= i < |matched| ==> matched[i] >= 1) ==> MatchesUpTo(matched, last) == 0
  {
    if |matched| > 0 {
      AllMatchesUpTo(matched[..|matched| - 1], last);
    }
  }

  lemma {:induction false} MatchesShownUpTo(matched: seq<nat>, before: nat, after: nat, last: nat, count: nat)
    requires MatchLines(matched, count) && last <= count
    ensures CountMatches(Shown(matched, before, after, last), matched) == MatchesUpTo(matched, last)
  {
    if last == 0 {
      AllMatchesUpTo(matched, 0);
    } else {
      MatchesShownUpTo(matched, before, after, last - 1, count);
      OneMatchMore(matched, last, count);
      var shown := Shown(matched, before, after, last - 1);
      assert (shown + [last])[..|shown|] == shown;
      assert shown + [] == shown;
      if last in matched {
        var i :| 0 <= i < |matched| && matched[i] == last;
        assert Near(matched, before, after, last);
      }
    }
  }

  /** Every match is shown and marked as one, exactly once: a section's match count is the number of its match rows. */
  lemma MatchesAccounted(matched: seq<nat>, before: nat, after: nat, count: nat)
    requires MatchLines(matched, count)
    ensures CountMatches(Shown(matched, before, after, count), matched) == |matched|
  {
    MatchesShownUpTo(matched, before, after, count, count);
    AllMatchesUpTo(matched, count);
  }

  /** The shown lines ascend and are exactly those near a match. */
  lemma {:induction false} ShownExactly(matched: seq<nat>, before: nat, after: nat, last: nat)
    ensures Ascending(Shown(matched, before, after, last))
    ensures forall line :: line in Shown(matched, before, after, last) <==>
      1 <= line <= last && Near(matched, before, after, line)
  {
    if last > 0 {
      ShownExactly(matched, before, after, last - 1);
      var shown := Shown(matched, before, after, last - 1);
      assert forall i :: 0 <= i < |shown| ==> shown[i] in shown;
    }
  }

  // ---------------------------------------------------------------- rendering a section

  lemma {:induction false} NothingBetween(matched: seq<nat>, before: nat, after: nat, low: nat, high: nat)
    requires low <= high && forall line :: low < line <= high ==> !Near(matched, before, after, line)
    ensures Shown(matched, before, after, high) == Shown(matched, before, after, low)
    decreases high
  {
    if low < high {
      NothingBetween(matched, before, after, low, high - 1);
    }
  }

  /** What the loops have shown before zero-based line `index`: complete rows, or a gap row that awaits its line. */
  ghost predicate Rendered(
    body: Bytes, text: Bytes, matched: seq<nat>, before: nat, after: nat, index: nat, gap: bool)
    requires index <= LineCount(text)
  {
    ShownInRange(text, matched, before, after, index);
    body == Body(text, matched, Shown(matched, before, after, index)) + (if gap then GAP else [])
  }

  /** The last line shown so far is the neighbour of the next one exactly when that neighbour is shown. */
  lemma LastShown(matched: seq<nat>, before: nat, after: nat, index: nat, gap: bool)
    requires gap <==> Shown(matched, before, after, index) != [] && !Near(matched, before, after, index)
    ensures var shown := Shown(matched, before, after, index);
      gap <==> shown != [] && index + 1 != shown[|shown| - 1] + 1
  {
    var shown := Shown(matched, before, after, index);
    if shown != [] {
      ShownExactly(matched, before, after, index);
      var last := shown[|shown| - 1];
      assert last in shown;
      if Near(matched, before, after, index) {
        assert index in shown;
        var i :| 0 <= i < |shown| && shown[i] == index;
      }
    }
  }

  /** The gap row, if due, and the row of the next shown line complete the body up to that line. */
  lemma NextBody(
    body: Bytes, text: Bytes, matched: seq<nat>, shown: seq<nat>, line: nat, gap: bool)
    requires LinesOf(text, shown) && 1 <= line <= LineCount(text)
    requires gap <==> shown != [] && line != shown[|shown| - 1] + 1
    requires body == Body(text, matched, shown) + (if gap then GAP else [])
    ensures LinesOf(text, shown + [line])
    ensures body + RenderHitLine(text, matched, line) == Body(text, matched, shown + [line]) + []
  {
    var more := shown + [line];
    assert more[..|more| - 1] == shown;
  }

  /** Rendering the next shown line: a gap is due exactly when its predecessor is not shown. */
  lemma RenderedNext(
    body: Bytes, text: Bytes, matched: seq<nat>, before: nat, after: nat, index: nat, gap: bool)
    requires index < LineCount(text) && Near(matched, before, after, index + 1)
    requires Rendered(body, text, matched, before, after, index, gap)
    requires gap <==> Shown(matched, before, after, index) != [] && !Near(matched, before, after, index)
    ensures Rendered(body + RenderHitLine(text, matched, index + 1), text, matched, before, after, index + 1, false)
  {
    ShownInRange(text, matched, before, after, index);
    LastShown(matched, before, after, index, gap);
    NextBody(body, text, matched, Shown(matched, before, after, index), index + 1, gap);
  }

  /** The cursor stands at the first match not before `line`. */
  ghost predicate CursorAt(matched: seq<nat>, cursor: nat, line: nat) {
    && cursor <= |matched|
    && (forall i :: 0 <= i < cursor ==> matched[i] < line)
    && (forall i :: cursor <= i < |matched| ==> line <= matched[i])
  }

  method AdvanceCursor(matched: seq<nat>, from: nat, line: nat) returns (cursor: nat)
    requires from <= |matched| && forall i :: 0 <= i < from ==> matched[i] < line
    requires forall i, j :: 0 <= i < j < |matched| ==> matched[i] < matched[j]
    ensures CursorAt(matched, cursor, line)
    ensures (cursor < |matched| && matched[cursor] == line) <==> line in matched
  {
    cursor := from;
    while cursor < |matched| && matched[cursor] < line
      invariant cursor <= |matched| && forall i :: 0 <= i < cursor ==> matched[i] < line
    {
      cursor := cursor + 1;
    }
    assert forall i :: cursor <= i < |matched| ==> i == cursor || matched[cursor] < matched[i];
  }

  method HitLine(snapshot: Snapshot, matched: seq<nat>, line: nat, isMatch: bool) returns (row: Bytes)
    requires snapshot.Valid() && 1 <= line <= snapshot.lineCount && (isMatch <==> line in matched)
    modifies snapshot`offsets
    ensures snapshot.Valid() && row == RenderHitLine(snapshot.text, matched, line)
  {
    BoundariesAscend(snapshot.text);
    HeadingBounds(snapshot.text);
    var start := snapshot.LineStart(line);
    var end := LineEnd(snapshot, line);
    assert start.value == Boundaries(snapshot.text)[line - 1];
    var content := DisplayLineContent(snapshot.text, start.value, end);
    row := Decimal(line) + [AT_SIGN] + Decimal(start.value) + [if isMatch then COLON else DASH] + content + [LF];
  }

  /** The spans of a section, with what they mean for its lines. */
  ghost predicate SectionSpans(spans: seq<Span>, matched: seq<nat>, before: nat, after: nat, count: nat) {
    && MatchLines(matched, count) && NoneEmpty(spans) && Apart(spans)
    && (forall i :: 0 <= i < |spans| ==> spans[i].end <= count)
    && forall line: nat :: line < count ==> (InSome(spans, line) <==> Near(matched, before, after, line + 1))
  }

  /** Zero-based line after the spans before `i`. */
  function EndBefore(spans: seq<Span>, i: nat): nat
    requires i <= |spans|
  {
    if i == 0 then 0 else spans[i - 1].end
  }

  lemma BetweenSpans(spans: seq<Span>, i: nat, line: nat)
    requires NoneEmpty(spans) && Apart(spans) && i <= |spans|
    ensures (i > 0 ==> spans[i - 1].end <= line) && (i < |spans| ==> line < spans[i].start) ==> !InSome(spans, line)
    ensures i < |spans| && spans[i].start == line + 1 ==> !InSome(spans, line)
  {
    forall j | 0 <= j < |spans|
      ensures (i > 0 ==> spans[i - 1].end <= line) && (i < |spans| ==> line < spans[i].start) ==> !spans[j].Has(line)
      ensures i < |spans| && spans[i].start == line + 1 ==> !spans[j].Has(line)
    {
    }
  }

  /** Between the spans before `i` and span `i`, or the end of the file, nothing is shown. */
  lemma NothingUntil(spans: seq<Span>, matched: seq<nat>, before: nat, after: nat, count: nat, i: nat)
    requires SectionSpans(spans, matched, before, after, count) && i <= |spans|
    ensures EndBefore(spans, i) <= (if i < |spans| then spans[i].start else count)
    ensures Shown(matched, before, after, EndBefore(spans, i)) ==
      Shown(matched, before, after, if i < |spans| then spans[i].start else count)
  {
    var low, high := EndBefore(spans, i), if i < |spans| then spans[i].start else count;
    forall line: nat | low < line <= high
      ensures !Near(matched, before, after, line)
    {
      BetweenSpans(spans, i, line - 1);
    }
    NothingBetween(matched, before, after, low, high);
  }

  /** A line of a span is shown; its predecessor is shown exactly when it is not the first of the span. */
  lemma InsideSpan(
    spans: seq<Span>, matched: seq<nat>, before: nat, after: nat, count: nat, i: nat, index: nat)
    requires SectionSpans(spans, matched, before, after, count) && i < |spans| && spans[i].Has(index)
    ensures Near(matched, before, after, index + 1)
    ensures index > 0 ==> (Near(matched, before, after, index) <==> index != spans[i].start)
    ensures index == spans[i].start ==> (Shown(matched, before, after, index) != [] <==> i > 0)
  {
    assert InSome(spans, index);
    if index > spans[i].start {
      assert spans[i].Has(index - 1) && InSome(spans, index - 1);
    } else {
      if index > 0 {
        BetweenSpans(spans, i, index - 1);
      }
      NothingUntil(spans, matched, before, after, count, i);
      if i > 0 {
        var last := spans[i - 1].end;
        assert spans[i - 1].Has(last - 1) && InSome(spans, last - 1);
        ShownExactly(matched, before, after, last);
        assert last in Shown(matched, before, after, last);
      }
    }
  }

  /** Every line of the span is near a match; a gap row is due before it when something was shown, not its neighbour. */
  ghost predicate ShownSpan(span: Span, matched: seq<nat>, before: nat, after: nat, gap: bool) {
    && span.start < span.end
    && (forall line :: span.start < line <= span.end ==> Near(matched, before, after, line))
    && (gap <==> Shown(matched, before, after, span.start) != [] && !Near(matched, before, after, span.start))
  }

  lemma SpanIsShown(spans: seq<Span>, matched: seq<nat>, before: nat, after: nat, count: nat, i: nat)
    requires SectionSpans(spans, matched, before, after, count) && i < |spans|
    ensures ShownSpan(spans[i], matched, before, after, i > 0)
  {
    forall line | spans[i].start < line <= spans[i].end
      ensures Near(matched, before, after, line)
    {
      InsideSpan(spans, matched, before, after, count, i, line - 1);
    }
    InsideSpan(spans, matched, before, after, count, i, spans[i].start);
  }

  /** The cursor moves to the line, which decides how the line is marked. */
  method RenderNext(snapshot: Snapshot, matched: seq<nat>, from: nat, line: nat) returns (row: Bytes, cursor: nat)
    requires snapshot.Valid() && 1 <= line <= snapshot.lineCount
    requires from <= |matched| && forall k :: 0 <= k < from ==> matched[k] < line
    requires forall i, j :: 0 <= i < j < |matched| ==> matched[i] < matched[j]
    modifies snapshot`offsets
    ensures snapshot.Valid() && row == RenderHitLine(snapshot.text, matched, line)
    ensures cursor <= |matched| && forall k :: 0 <= k < cursor ==> matched[k] <= line
  {
    cursor := AdvanceCursor(matched, from, line);
    row := HitLine(snapshot, matched, line, cursor < |matched| && matched[cursor] == line);
  }

  /** One span: its lines, with the cursor moving over the matches. */
  method RenderSpan(
    snapshot: Snapshot, matched: seq<nat>, ghost before: nat, ghost after: nat, span: Span, ghost gap: bool,
    from: nat, done: Bytes) returns (body: Bytes, cursor: nat)
    requires snapshot.Valid() && span.end <= snapshot.lineCount
    requires ShownSpan(span, matched, before, after, gap)
    requires forall i, j :: 0 <= i < j < |matched| ==> matched[i] < matched[j]
    requires from <= |matched| && forall k :: 0 <= k < from ==> matched[k] <= span.start
    requires Rendered(done, snapshot.text, matched, before, after, span.start, gap)
    modifies snapshot`offsets
    ensures snapshot.Valid()
    ensures cursor <= |matched| && forall k :: 0 <= k < cursor ==> matched[k] <= span.end
    ensures Rendered(body, snapshot.text, matched, before, after, span.end, false)
  {
    body, cursor := done, from;
    for index := span.start to span.end
      invariant snapshot.Valid()
      invariant cursor <= |matched| && forall k :: 0 <= k < cursor ==> matched[k] <= index
      invariant Rendered(body, snapshot.text, matched, before, after, index, index == span.start && gap)
    {
      var row;
      row, cursor := RenderNext(snapshot, matched, cursor, index + 1);
      RenderedNext(body, snapshot.text, matched, before, after, index, index == span.start && gap);
      body := body + row;
    }
  }

  /** The gap row before every span but the first. */
  lemma GapDue(
    body: Bytes, text: Bytes, spans: seq<Span>, matched: seq<nat>, before: nat, after: nat, count: nat, i: nat)
    requires SectionSpans(spans, matched, before, after, count) && i < |spans| && count <= LineCount(text)
    requires Rendered(body, text, matched, before, after, EndBefore(spans, i), false)
    ensures Rendered(if i > 0 then body + GAP else body, text, matched, before, after, spans[i].start, i > 0)
  {
    NothingUntil(spans, matched, before, after, count, i);
  }

  /** The next span, with the gap row before it if it is not the first. */
  method RenderNextSpan(
    snapshot: Snapshot, matched: seq<nat>, ghost before: nat, ghost after: nat, ghost count: nat, spans: seq<Span>,
    i: nat, from: nat, done: Bytes) returns (body: Bytes, cursor: nat)
    requires snapshot.Valid() && count <= snapshot.lineCount && i < |spans|
    requires SectionSpans(spans, matched, before, after, count)
    requires from <= |matched| && forall k :: 0 <= k < from ==> matched[k] <= EndBefore(spans, i)
    requires Rendered(done, snapshot.text, matched, before, after, EndBefore(spans, i), false)
    modifies snapshot`offsets
    ensures snapshot.Valid()
    ensures cursor <= |matched| && forall k :: 0 <= k < cursor ==> matched[k] <= spans[i].end
    ensures Rendered(body, snapshot.text, matched, before, after, spans[i].end, false)
  {
    NothingUntil(spans, matched, before, after, count, i);
    GapDue(done, snapshot.text, spans, matched, before, after, count, i);
    SpanIsShown(spans, matched, before, after, count, i);
    body, cursor := RenderSpan(
      snapshot, matched, before, after, spans[i], i > 0, from, if i > 0 then done + GAP else done);
  }

  /** All spans in order, a gap row between any two. */
  method RenderSpans(
    snapshot: Snapshot, matched: seq<nat>, ghost before: nat, ghost after: nat, ghost count: nat, spans: seq<Span>)
    returns (body: Bytes)
    requires snapshot.Valid() && count <= snapshot.lineCount
    requires SectionSpans(spans, matched, before, after, count)
    modifies snapshot`offsets
    ensures snapshot.Valid()
    ensures Rendered(body, snapshot.text, matched, before, after, count, false)
  {
    body := [];
    var cursor: nat := 0;
    for i := 0 to |spans|
      invariant snapshot.Valid()
      invariant cursor <= |matched| && forall k :: 0 <= k < cursor ==> matched[k] <= EndBefore(spans, i)
      invariant EndBefore(spans, i) <= snapshot.lineCount
      invariant Rendered(body, snapshot.text, matched, before, after, EndBefore(spans, i), false)
    {
      body, cursor := RenderNextSpan(snapshot, matched, before, after, count, spans, i, cursor, body);
    }
    NothingUntil(spans, matched, before, after, count, |spans|);
  }

  /** Cuts every span at the end of the searchable lines, in place. */
  method TrimSpans(merged: seq<Span>, count: nat) returns (spans: seq<Span>)
    ensures spans == Trimmed(merged, count)
  {
    spans := merged;
    for i := 0 to |spans|
      invariant |spans| == |merged|
      invariant forall k :: 0 <= k < i ==> spans[k] == merged[k].Trim(count)
      invariant forall k :: i <= k < |spans| ==> spans[k] == merged[k]
    {
      spans := spans[i := spans[i].(end := Min(spans[i].end, count))];
    }
  }

  lemma SpansForSection(text: Bytes, matched: seq<nat>, before: nat, after: nat)
    requires IsText(text) && MatchLines(matched, Searchable(text)) && after <= 0xFFFF
    ensures Searchable(text) <= LineCount(text)
    ensures SectionSpans(Trimmed(Merged(Windows(matched, before, after)), Searchable(text)),
      matched, before, after, Searchable(text))
  {
    HeadingBounds(text);
    var count := Searchable(text);
    SpansApart(matched, before, after, count);
    forall line: nat | line < count
      ensures InSome(Trimmed(Merged(Windows(matched, before, after)), count), line) <==>
        Near(matched, before, after, line + 1)
    {
      SpansShowContext(matched, before, after, count, line);
    }
  }

  /** A section: every line near a match once, in order, marked, with gap rows exactly at jumps. */
  method RenderHit(
    text: Bytes, contentId: Bytes -> SnapshotId, rel: Bytes, relJson: Bytes,
    matched: seq<nat>, before: u16, after: u16, mode: OutputMode)
    returns (hit: FileHit)
    requires IsText(text) && MatchLines(matched, Searchable(text))
    ensures hit.rel == rel && hit.matches == |matched|
    ensures mode == Content ==>
      && hit.header == RenderHeading(HeadingOf(text, contentId(text), relJson))
      && hit.body == SectionBody(text, matched, before, after)
    ensures mode != Content ==> hit.header == [] && hit.body == []
  {
    if mode != Content {
      return FileHit(rel, [], [], |matched|);
    }
    var snapshot := new Snapshot.FromValidated(text, contentId);
    var table := snapshot.Offsets();
    HeadingBounds(text);
    LineStartsExact(text);
    var searchable := if |text| == 0 || text[|text| - 1] == LF then SaturatingSub(snapshot.lineCount, 1)
      else snapshot.lineCount;
    var merged := IncludedSpans(matched, before, after);
    var spans := TrimSpans(merged, searchable);
    SpansForSection(text, matched, before, after);
    var header := RenderHeading(Heading(snapshot.id, snapshot.lineCount, snapshot.byteLen, relJson));
    var body := RenderSpans(snapshot, matched, before, after, searchable, spans);
    assert body + [] == body;
    return FileHit(rel, header, body, |matched|);
  }
}
