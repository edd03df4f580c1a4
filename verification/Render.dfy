/** Read pages on the wire: one header, `LINE@BYTE|CONTENT` lines and an optional cursor footer. */
module Render {
  import opened Numbers
  import opened Text
  import opened Batch
  import opened Protocol
  import opened Snapshots
  import opened Tokens

  const BAR: byte := 124
  const OPEN: byte := 91
  const SPACE: byte := 32
  const CLOSE: Bytes := [93]

  predicate Printable(s: string) {
    forall i :: 0 <= i < |s| ==> ' ' <= s[i] <= '~'
  }

  function Ascii(s: string): (r: Bytes)
    requires Printable(s)
    ensures |r| == |s| && LF !in r
    ensures forall i :: 0 <= i < |s| ==> r[i] as int == s[i] as int
  {
    seq(|s|, i requires 0 <= i < |s| => s[i] as int as byte)
  }

  /** What a header says; the path is its JSON text. */
  datatype Heading = Heading(snapshot: SnapshotId, lines: u64, bytes: u64, path: Bytes)

  datatype Page = Page(heading: Heading, lines: seq<ContextLine>, next: Option<PageCursor>)

  function RenderHeading(h: Heading): Bytes {
    Ascii("[hashline snapshot=") + (PrintSnapshotId(h.snapshot) +
    (Ascii(" lines=") + (Decimal(h.lines) +
    (Ascii(" bytes=") + (Decimal(h.bytes) +
    (Ascii(" path=") + (h.path + CLOSE)))))))
  }

  function RenderFooter(cursor: PageCursor): Bytes {
    Ascii("[hashline next snapshot=") + (PrintSnapshotId(cursor.snapshot) +
    (Ascii(" position=") + (PrintPosition(cursor.next) + CLOSE)))
  }

  function RenderLine(line: ContextLine): Bytes {
    Decimal(line.line) + [AT_SIGN] + Decimal(line.byte) + [BAR] + line.content
  }

  function RenderLines(lines: seq<ContextLine>): (r: seq<Bytes>)
    ensures |r| == |lines| && forall i :: 0 <= i < |r| ==> r[i] == RenderLine(lines[i])
  {
    seq(|lines|, i requires 0 <= i < |lines| => RenderLine(lines[i]))
  }

  function FooterOf(next: Option<PageCursor>): seq<Bytes> {
    if next.Some? then [RenderFooter(next.value)] else []
  }

  /** The rows of a page, in order. */
  function Rows(page: Page): seq<Bytes> {
    [RenderHeading(page.heading)] + RenderLines(page.lines) + FooterOf(page.next)
  }

  /** Rows separated by LF, without a final LF. */
  function Join(rows: seq<Bytes>): Bytes
    requires |rows| > 0
  {
    if |rows| == 1 then rows[0] else rows[0] + [LF] + Join(rows[1..])
  }

  lemma {:induction false} JoinAppend(rows: seq<Bytes>, row: Bytes)
    requires |rows| > 0
    ensures Join(rows + [row]) == Join(rows) + [LF] + row
  {
    if |rows| > 1 {
      JoinAppend(rows[1..], row);
      assert (rows + [row])[1..] == rows[1..] + [row];
      assert Join(rows + [row]) == rows[0] + [LF] + (Join(rows[1..]) + [LF] + row);
    }
  }

  function RenderPage(page: Page): Bytes {
    Join(Rows(page))
  }

  function HeadingOf(text: Bytes, id: SnapshotId, path: Bytes): Heading
    requires IsText(text)
  {
    LineStartsExact(text);
    CountLfBound(text);
    Heading(id, LineCount(text), |text|, path)
  }

  /** The page asked for: lines from `startLine`, at most `limit` of them, and where to go on. */
  function PageAt(text: Bytes, id: SnapshotId, path: Bytes, startLine: nat, limit: nat): Page
    requires IsText(text)
  {
    var heading, count, first := HeadingOf(text, id, path), LineCount(text), Max(startLine, 1);
    if first > count then
      Page(heading, [], None)
    else
      var last := Min(first + Max(limit, 1) - 1, count);
      Page(heading, ContextLines(text, first, last),
           if last < count then Some(PageCursor(id, PositionOf(text, last))) else None)
  }

  /** Strips one LF and one CR before it. */
  method DisplayLineContent(text: Bytes, start: nat, end: nat) returns (content: Bytes)
    requires start <= end <= |text|
    ensures content == text[start..DisplayEnd(text, start, end)]
  {
    var contentEnd := end;
    if contentEnd > start && text[contentEnd - 1] == LF {
      contentEnd := contentEnd - 1;
      if contentEnd > start && text[contentEnd - 1] == CR {
        contentEnd := contentEnd - 1;
      }
    }
    content := text[start..contentEnd];
  }

  lemma {:induction false} ContextLinesAppend(text: Bytes, first: nat, last: nat)
    requires 1 <= first <= last + 1 && last < LineCount(text)
    ensures ContextLines(text, first, last + 1) ==
      ContextLines(text, first, last) + ContextLines(text, last + 1, last + 1)
    decreases last + 1 - first
  {
    if first <= last {
      ContextLinesAppend(text, first + 1, last);
    }
  }

  lemma RenderLinesAppend(lines: seq<ContextLine>, line: ContextLine)
    ensures RenderLines(lines + [line]) == RenderLines(lines) + [RenderLine(line)]
  {
  }

  /** End of a line: the next line's start, or the end of the text. */
  method LineEnd(snapshot: Snapshot, line: nat) returns (end: nat)
    requires snapshot.Valid() && 1 <= line <= snapshot.lineCount
    modifies snapshot`offsets
    ensures snapshot.Valid() && end == Boundaries(snapshot.text)[line]
  {
    if line < snapshot.lineCount {
      var next := snapshot.LineStart(line + 1);
      end := next.value;
    } else {
      end := snapshot.byteLen;
    }
  }

  /** One line of the loop: its position, `|`, and its displayed content. */
  method RenderedLine(snapshot: Snapshot, line: nat) returns (row: Bytes, ghost shown: ContextLine)
    requires snapshot.Valid() && 1 <= line <= snapshot.lineCount
    modifies snapshot`offsets
    ensures snapshot.Valid()
    ensures row == RenderLine(shown) && [shown] == ContextLines(snapshot.text, line, line)
  {
    BoundariesAscend(snapshot.text);
    LineStartsExact(snapshot.text);
    CountLfBound(snapshot.text);
    var start := snapshot.LineStart(line);
    var end := LineEnd(snapshot, line);
    assert start.value == Boundaries(snapshot.text)[line - 1];
    var content := DisplayLineContent(snapshot.text, start.value, end);
    row := PrintPosition(At(line, start.value)) + [BAR] + content;
    shown := ContextLine(line, start.value, content);
  }

  lemma RowsGrow(text: Bytes, first: nat, line: nat, shown: ContextLine)
    requires 1 <= first <= line <= LineCount(text) && [shown] == ContextLines(text, line, line)
    ensures RenderLines(ContextLines(text, first, line)) ==
      RenderLines(ContextLines(text, first, line - 1)) + [RenderLine(shown)]
  {
    ContextLinesAppend(text, first, line - 1);
    RenderLinesAppend(ContextLines(text, first, line - 1), shown);
  }

  /** The page loop. */
  method AppendLines(snapshot: Snapshot, header: Bytes, first: nat, last: nat) returns (out: Bytes)
    requires snapshot.Valid() && 1 <= first <= last <= snapshot.lineCount
    modifies snapshot`offsets
    ensures snapshot.Valid()
    ensures out == Join([header] + RenderLines(ContextLines(snapshot.text, first, last)))
  {
    out := header;
    ghost var rows := [header];
    for line := first to last + 1
      invariant snapshot.Valid()
      invariant rows == [header] + RenderLines(ContextLines(snapshot.text, first, line - 1))
      invariant out == Join(rows)
    {
      var row, shown := RenderedLine(snapshot, line);
      RowsGrow(snapshot.text, first, line, shown);
      JoinAppend(rows, row);
      rows := rows + [row];
      out := out + [LF] + row;
    }
  }

  lemma HeadingBounds(text: Bytes)
    requires IsText(text)
    ensures LineCount(text) <= MAX_FILE_BYTES + 1
    ensures forall at :: at in LineStarts(text) ==> at <= |text|
  {
    LineStartsExact(text);
    CountLfBound(text);
  }

  /** The last line of a page with the saturating arithmetic of the source. */
  function LastLine(first: u64, limit: nat, lineCount: nat): nat {
    Min(SaturatingSub(SaturatingAdd(first, limit), 1), lineCount)
  }

  /** Saturation never shows: no text has so many lines. */
  lemma LastLineExact(text: Bytes, first: u64, limit: nat)
    requires IsText(text) && 1 <= limit && first <= LineCount(text)
    ensures LastLine(first, limit, LineCount(text)) == Min(first + limit - 1, LineCount(text))
  {
    LineStartsExact(text);
    CountLfBound(text);
  }

  /** The cursor of the line after `last`. */
  method NextCursor(snapshot: Snapshot, last: nat) returns (cursor: PageCursor)
    requires snapshot.Valid() && last < snapshot.lineCount
    modifies snapshot`offsets
    ensures snapshot.Valid()
    ensures cursor == PageCursor(snapshot.id, PositionOf(snapshot.text, last))
  {
    HeadingBounds(snapshot.text);
    var nextByte := snapshot.LineStart(last + 1);
    assert nextByte.value in LineStarts(snapshot.text);
    cursor := PageCursor(snapshot.id, At(last + 1, nextByte.value));
  }

  /** One page: header, lines, and a footer while lines remain. */
  method RenderSnapshotPage(snapshot: Snapshot, path: Bytes, startLine: u64, limit: u16) returns (out: Bytes)
    requires snapshot.Valid()
    modifies snapshot`offsets
    ensures snapshot.Valid()
    ensures out == RenderPage(PageAt(snapshot.text, snapshot.id, path, startLine, limit))
  {
    ghost var text, page := snapshot.text, PageAt(snapshot.text, snapshot.id, path, startLine, limit);
    var lineCount := snapshot.lineCount;
    HeadingBounds(text);
    var header := RenderHeading(Heading(snapshot.id, lineCount, snapshot.byteLen, path));
    var table := snapshot.Offsets();
    var first := Max(startLine, 1);
    if first > lineCount {
      assert Rows(page) == [header];
      return header;
    }
    LastLineExact(text, first, Max(limit, 1));
    var last := LastLine(first, Max(limit, 1), lineCount);
    out := AppendLines(snapshot, header, first, last);
    ghost var rows := [header] + RenderLines(ContextLines(text, first, last));
    if last < lineCount {
      var cursor := NextCursor(snapshot, last);
      JoinAppend(rows, RenderFooter(cursor));
      out := out + [LF] + RenderFooter(cursor);
      assert Rows(page) == rows + [RenderFooter(cursor)];
    } else {
      assert Rows(page) == rows;
    }
  }
}
