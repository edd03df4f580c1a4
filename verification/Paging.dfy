/** What a reader of page texts can recover: the page itself, and from a whole chain the exact file. */
module Paging {
  import opened Numbers
  import opened Sequences
  import opened Text
  import opened Batch
  import opened Protocol
  import opened Tokens
  import opened Render
  import opened Read

  // ---------------------------------------------------------------- rows

  /** The parts between LFs. */
  function Split(text: Bytes): (rows: seq<Bytes>)
    ensures |rows| > 0
    decreases |text|
  {
    match Find(text, LF)
    case None => [text]
    case Some(at) => [text[..at]] + Split(text[at + 1..])
  }

  predicate NoLf(rows: seq<Bytes>) {
    forall i :: 0 <= i < |rows| ==> LF !in rows[i]
  }

  lemma SplitFirst(row: Bytes, rest: Bytes)
    requires LF !in row
    ensures Split(row + [LF] + rest) == [row] + Split(rest)
  {
    FindSplits(row, LF, rest);
  }

  lemma {:induction false} SplitUndoesJoin(rows: seq<Bytes>)
    requires |rows| > 0 && NoLf(rows)
    ensures Split(Join(rows)) == rows
  {
    if |rows| > 1 {
      var row, rest := rows[0], rows[1..];
      assert LF !in row;
      SplitUndoesJoin(rest);
      SplitFirst(row, Join(rest));
      assert rows == [row] + rest;
    }
  }

  // ---------------------------------------------------------------- fields

  function Strip(s: Bytes, prefix: Bytes): Option<Bytes> {
    if |prefix| <= |s| && s[..|prefix|] == prefix then Some(s[|prefix|..]) else None
  }

  function StripEnd(s: Bytes, suffix: Bytes): Option<Bytes> {
    if |suffix| <= |s| && s[|s| - |suffix|..] == suffix then Some(s[..|s| - |suffix|]) else None
  }

  lemma StripConcat(prefix: Bytes, rest: Bytes)
    ensures Strip(prefix + rest, prefix) == Some(rest)
    ensures StripEnd(rest + prefix, prefix) == Some(rest)
  {
  }

  /** A snapshot identity and what follows it. */
  function TakeId(s: Bytes): Option<(SnapshotId, Bytes)> {
    if |s| < SNAPSHOT_ID_HEX_LEN then None else
    match ParseSnapshotId(s[..SNAPSHOT_ID_HEX_LEN])
    case Err(_) => None
    case Ok(id) => Some((id, s[SNAPSHOT_ID_HEX_LEN..]))
  }

  lemma TakesToken(token: Bytes, rest: Bytes)
    requires |token| == SNAPSHOT_ID_HEX_LEN && ParseSnapshotId(token).Ok?
    ensures TakeId(token + rest) == Some((ParseSnapshotId(token).value, rest))
  {
    var s := token + rest;
    assert s[..SNAPSHOT_ID_HEX_LEN] == token && s[SNAPSHOT_ID_HEX_LEN..] == rest;
  }

  lemma TakesId(id: SnapshotId, rest: Bytes)
    ensures TakeId(PrintSnapshotId(id) + rest) == Some((id, rest))
  {
    SnapshotIdRoundTrips(id, []);
    TakesToken(PrintSnapshotId(id), rest);
  }

  function TakeIdAfter(prefix: Bytes, s: Bytes): Option<(SnapshotId, Bytes)> {
    match Strip(s, prefix)
    case None => None
    case Some(rest) => TakeId(rest)
  }

  lemma TakesIdAfter(prefix: Bytes, row: Bytes, id: SnapshotId, rest: Bytes)
    requires row == prefix + (PrintSnapshotId(id) + rest)
    ensures TakeIdAfter(prefix, row) == Some((id, rest))
  {
    StripConcat(prefix, PrintSnapshotId(id) + rest);
    TakesId(id, rest);
  }

  /** A decimal ended by a space, and what follows from the space on. */
  function TakeDecimal(s: Bytes): Option<(u64, Bytes)> {
    match Find(s, SPACE)
    case None => None
    case Some(at) =>
      match ParsedDecimal(s[..at], Byte)
      case Err(_) => None
      case Ok(n) => Some((n, s[at..]))
  }

  lemma TakesDigits(digits: Bytes, rest: Bytes)
    requires SPACE !in digits && ParsedDecimal(digits, Byte).Ok? && |rest| > 0 && rest[0] == SPACE
    ensures TakeDecimal(digits + rest) == Some((ParsedDecimal(digits, Byte).value, rest))
  {
    FindSplits(digits, SPACE, rest[1..]);
    assert digits + rest == digits + [SPACE] + rest[1..];
    assert (digits + rest)[|digits|..] == rest;
  }

  lemma TakesDecimal(n: u64, rest: Bytes)
    requires |rest| > 0 && rest[0] == SPACE
    ensures TakeDecimal(Decimal(n) + rest) == Some((n, rest))
  {
    DecimalRoundTrip(n);
    NotInDigits(Decimal(n), SPACE);
    TakesDigits(Decimal(n), rest);
  }

  // ---------------------------------------------------------------- parsing pages

  function ParseHeading(row: Bytes): Option<Heading> {
    ParseHeadingAfter(Ascii("[hashline snapshot="), row)
  }

  function ParseHeadingAfter(start: Bytes, row: Bytes): Option<Heading> {
    match TakeIdAfter(start, row)
    case None => None
    case Some((id, s)) => ParseLineCount(id, s)
  }

  function ParseLineCount(id: SnapshotId, s: Bytes): Option<Heading> {
    match Strip(s, Ascii(" lines="))
    case None => None
    case Some(s) =>
      match TakeDecimal(s)
      case None => None
      case Some((lines, s)) => ParseByteCount(id, lines, s)
  }

  function ParseByteCount(id: SnapshotId, lines: u64, s: Bytes): Option<Heading> {
    match Strip(s, Ascii(" bytes="))
    case None => None
    case Some(s) =>
      match TakeDecimal(s)
      case None => None
      case Some((bytes, s)) => ParsePath(id, lines, bytes, s)
  }

  function ParsePath(id: SnapshotId, lines: u64, bytes: u64, s: Bytes): Option<Heading> {
    match Strip(s, Ascii(" path="))
    case None => None
    case Some(s) =>
      match StripEnd(s, CLOSE)
      case None => None
      case Some(path) => Some(Heading(id, lines, bytes, path))
  }

  lemma PathParses(id: SnapshotId, lines: u64, bytes: u64, path: Bytes)
    ensures ParsePath(id, lines, bytes, Ascii(" path=") + (path + CLOSE)) == Some(Heading(id, lines, bytes, path))
  {
    StripConcat(Ascii(" path="), path + CLOSE);
    StripConcat(CLOSE, path);
  }

  lemma ByteCountParses(id: SnapshotId, lines: u64, bytes: u64, rest: Bytes)
    requires |rest| > 0 && rest[0] == SPACE
    ensures ParseByteCount(id, lines, Ascii(" bytes=") + (Decimal(bytes) + rest)) == ParsePath(id, lines, bytes, rest)
  {
    StripConcat(Ascii(" bytes="), Decimal(bytes) + rest);
    TakesDecimal(bytes, rest);
  }

  lemma LineCountParses(id: SnapshotId, lines: u64, rest: Bytes)
    requires |rest| > 0 && rest[0] == SPACE
    ensures ParseLineCount(id, Ascii(" lines=") + (Decimal(lines) + rest)) == ParseByteCount(id, lines, rest)
  {
    StripConcat(Ascii(" lines="), Decimal(lines) + rest);
    TakesDecimal(lines, rest);
  }

  lemma IdentityParses(start: Bytes, row: Bytes, id: SnapshotId, rest: Bytes)
    requires row == start + (PrintSnapshotId(id) + rest)
    ensures ParseHeadingAfter(start, row) == ParseLineCount(id, rest)
  {
    TakesIdAfter(start, row, id, rest);
  }

  lemma StartsWithSpace(field: Bytes, rest: Bytes)
    requires |field| > 0 && field[0] == SPACE
    ensures (field + rest)[0] == SPACE
  {
  }

  lemma HeadingParses(h: Heading)
    ensures ParseHeading(RenderHeading(h)) == Some(h)
  {
    var path := Ascii(" path=") + (h.path + CLOSE);
    var bytes := Ascii(" bytes=") + (Decimal(h.bytes) + path);
    var lines := Ascii(" lines=") + (Decimal(h.lines) + bytes);
    StartsWithSpace(Ascii(" path="), h.path + CLOSE);
    StartsWithSpace(Ascii(" bytes="), Decimal(h.bytes) + path);
    IdentityParses(Ascii("[hashline snapshot="), RenderHeading(h), h.snapshot, lines);
    LineCountParses(h.snapshot, h.lines, bytes);
    ByteCountParses(h.snapshot, h.lines, h.bytes, path);
    PathParses(h.snapshot, h.lines, h.bytes, h.path);
  }

  function ParseFooter(row: Bytes): Option<PageCursor> {
    ParseFooterAfter(Ascii("[hashline next snapshot="), row)
  }

  function ParseFooterAfter(start: Bytes, row: Bytes): Option<PageCursor> {
    match TakeIdAfter(start, row)
    case None => None
    case Some((id, s)) => ParseNext(id, s)
  }

  function ParseNext(id: SnapshotId, s: Bytes): Option<PageCursor> {
    match Strip(s, Ascii(" position="))
    case None => None
    case Some(s) =>
      match StripEnd(s, CLOSE)
      case None => None
      case Some(token) =>
        match ParsedPosition(token)
        case Err(_) => None
        case Ok(position) => Some(PageCursor(id, position))
  }

  lemma NextParses(id: SnapshotId, position: Position)
    ensures ParseNext(id, Ascii(" position=") + (PrintPosition(position) + CLOSE)) == Some(PageCursor(id, position))
  {
    PrintThenParsePosition(position);
    StripConcat(Ascii(" position="), PrintPosition(position) + CLOSE);
    StripConcat(CLOSE, PrintPosition(position));
  }

  lemma NextIdentityParses(start: Bytes, row: Bytes, id: SnapshotId, rest: Bytes)
    requires row == start + (PrintSnapshotId(id) + rest)
    ensures ParseFooterAfter(start, row) == ParseNext(id, rest)
  {
    TakesIdAfter(start, row, id, rest);
  }

  /** A client reads back exactly the cursor the server meant. */
  lemma FooterParses(cursor: PageCursor)
    ensures ParseFooter(RenderFooter(cursor)) == Some(cursor)
  {
    var rest := Ascii(" position=") + (PrintPosition(cursor.next) + CLOSE);
    NextIdentityParses(Ascii("[hashline next snapshot="), RenderFooter(cursor), cursor.snapshot, rest);
    NextParses(cursor.snapshot, cursor.next);
  }

  function ParseLine(row: Bytes): Option<ContextLine> {
    match Find(row, BAR)
    case None => None
    case Some(at) =>
      match ParsedPosition(row[..at])
      case Err(_) => None
      case Ok(position) => Some(ContextLine(position.line, position.byte, row[at + 1..]))
  }

  predicate LineInRange(line: ContextLine) {
    1 <= line.line <= U64_MAX && line.byte <= U64_MAX && LF !in line.content
  }

  /** The content may hold any byte but LF, `|` and `@` included. */
  lemma LineParses(line: ContextLine)
    requires LineInRange(line)
    ensures ParseLine(RenderLine(line)) == Some(line)
    ensures LF !in RenderLine(line) && RenderLine(line)[0] != OPEN
  {
    var position: Position := At(line.line, line.byte);
    var token := PrintPosition(position);
    PrintThenParsePosition(position);
    NotInDigits(Decimal(line.line), BAR);
    NotInDigits(Decimal(line.byte), BAR);
    NotInDigits(Decimal(line.line), LF);
    NotInDigits(Decimal(line.byte), LF);
    FindSplits(token, BAR, line.content);
    assert RenderLine(line) == token + [BAR] + line.content;
  }

  /** All of the parts, or nothing. */
  function All<T>(parts: seq<Option<T>>): Option<seq<T>> {
    if |parts| == 0 then
      Some([])
    else
      match (parts[0], All(parts[1..]))
      case (Some(first), Some(rest)) => Some([first] + rest)
      case _ => None
  }

  lemma {:induction false} AllThere<T>(parts: seq<Option<T>>, values: seq<T>)
    requires |parts| == |values| && forall i :: 0 <= i < |parts| ==> parts[i] == Some(values[i])
    ensures All(parts) == Some(values)
  {
    if |parts| > 0 {
      AllThere(parts[1..], values[1..]);
      assert values == [values[0]] + values[1..];
    }
  }

  function ParseLines(rows: seq<Bytes>): Option<seq<ContextLine>> {
    All(Map(ParseLine, rows))
  }

  predicate LinesInRange(lines: seq<ContextLine>) {
    forall i :: 0 <= i < |lines| ==> LineInRange(lines[i])
  }

  lemma LinesParse(lines: seq<ContextLine>)
    requires LinesInRange(lines)
    ensures ParseLines(RenderLines(lines)) == Some(lines)
  {
    forall i | 0 <= i < |lines|
      ensures ParseLine(RenderLines(lines)[i]) == Some(lines[i])
    {
      LineParses(lines[i]);
    }
    AllThere(Map(ParseLine, RenderLines(lines)), lines);
  }

  datatype Layout = Layout(first: Bytes, lines: seq<Bytes>, footer: Option<Bytes>)

  predicate IsFooterRow(row: Bytes) {
    |row| > 0 && row[0] == OPEN
  }

  /** Header row, line rows, and a last row that is a footer when it opens with a bracket. */
  function LayOut(rows: seq<Bytes>): Layout
    requires |rows| > 0
  {
    var last := |rows| - 1;
    if last > 0 && IsFooterRow(rows[last]) then
      Layout(rows[0], rows[1..last], Some(rows[last]))
    else
      Layout(rows[0], rows[1..], None)
  }

  function Assemble(heading: Option<Heading>, lines: Option<seq<ContextLine>>, next: Option<Option<PageCursor>>)
    : Option<Page>
  {
    if heading.Some? && lines.Some? && next.Some? then
      Some(Page(heading.value, lines.value, next.value))
    else
      None
  }

  /** No footer, a footer's cursor, or a footer that cannot be read. */
  function ParseNextRow(footer: Option<Bytes>): Option<Option<PageCursor>> {
    match footer
    case None => Some(None)
    case Some(row) => if ParseFooter(row).Some? then Some(ParseFooter(row)) else None
  }

  function ParseLayout(layout: Layout): Option<Page> {
    Assemble(ParseHeading(layout.first), ParseLines(layout.lines), ParseNextRow(layout.footer))
  }

  function ParsePage(text: Bytes): Option<Page> {
    ParseLayout(LayOut(Split(text)))
  }

  predicate WellFormed(page: Page) {
    LF !in page.heading.path && LinesInRange(page.lines)
  }

  lemma RowsAreLfFree(page: Page)
    requires WellFormed(page)
    ensures NoLf(Rows(page))
  {
    var h := page.heading;
    NotInDigits(Decimal(h.lines), LF);
    NotInDigits(Decimal(h.bytes), LF);
    assert LF !in PrintSnapshotId(h.snapshot) by { assert !IsHex(LF); }
    assert LF !in RenderHeading(h);
    if page.next.Some? {
      var cursor := page.next.value;
      NotInDigits(Decimal(cursor.next.line), LF);
      NotInDigits(Decimal(cursor.next.byte), LF);
      assert LF !in PrintSnapshotId(cursor.snapshot) by { assert !IsHex(LF); }
      assert LF !in RenderFooter(cursor);
    }
    forall i | 0 <= i < |page.lines|
      ensures LF !in RenderLine(page.lines[i])
    {
      LineParses(page.lines[i]);
    }
  }

  lemma LaysOut(first: Bytes, lines: seq<Bytes>, footer: seq<Bytes>)
    requires |lines| > 0 ==> !IsFooterRow(lines[|lines| - 1])
    requires |footer| <= 1 && (|footer| == 1 ==> IsFooterRow(footer[0]))
    ensures LayOut([first] + lines + footer) ==
      Layout(first, lines, if |footer| == 1 then Some(footer[0]) else None)
  {
    var rows := [first] + lines + footer;
    if |footer| == 1 {
      assert rows[1..|rows| - 1] == lines;
    } else {
      assert rows[1..] == lines;
    }
  }

  lemma LastLineIsNoFooter(lines: seq<ContextLine>)
    requires LinesInRange(lines)
    ensures var rows := RenderLines(lines); |rows| > 0 ==> !IsFooterRow(rows[|rows| - 1])
  {
    if |lines| > 0 {
      LineParses(lines[|lines| - 1]);
    }
  }

  lemma PageLaysOut(page: Page)
    requires WellFormed(page)
    ensures LayOut(Rows(page)) == Layout(RenderHeading(page.heading), RenderLines(page.lines),
      if page.next.Some? then Some(RenderFooter(page.next.value)) else None)
  {
    LastLineIsNoFooter(page.lines);
    LaysOut(RenderHeading(page.heading), RenderLines(page.lines), FooterOf(page.next));
  }

  /** A page text parses back to its page: header, lines and footer cannot be mistaken for each other. */
  lemma PageParses(page: Page)
    requires WellFormed(page)
    ensures ParsePage(RenderPage(page)) == Some(page)
  {
    RowsAreLfFree(page);
    SplitUndoesJoin(Rows(page));
    PageLaysOut(page);
    HeadingParses(page.heading);
    LinesParse(page.lines);
    if page.next.Some? {
      FooterParses(page.next.value);
    }
  }

  // ---------------------------------------------------------------- lines of a text

  /** The terminator a gap of so many bytes stands for. */
  function Terminator(gap: int): Bytes {
    if gap <= 0 then [] else if gap == 1 then [LF] else [CR, LF]
  }

  /** Between two consecutive boundaries, at most the last byte is an LF. */
  lemma OneLfPerLine(text: Bytes, ordinal: nat, at: nat)
    requires ordinal < LineCount(text)
    ensures Boundaries(text)[ordinal] <= Boundaries(text)[ordinal + 1] <= |text|
    ensures Boundaries(text)[ordinal] <= at && at + 1 < Boundaries(text)[ordinal + 1] ==> text[at] != LF
  {
    BoundariesAscend(text);
    LineStartsExact(text);
    var starts := LineStarts(text);
    if Boundaries(text)[ordinal] <= at && at + 1 < Boundaries(text)[ordinal + 1] && text[at] == LF {
      assert IsLineStart(text, at + 1);
      var k :| 0 <= k < |starts| && starts[k] == at + 1;
      assert false;
    }
  }

  /** What a line's display leaves out is determined by its length alone. */
  lemma ShownPart(text: Bytes, start: nat, end: nat)
    requires start <= end <= |text|
    requires forall at :: start <= at < end - 1 ==> text[at] != LF
    ensures var shown := text[start..DisplayEnd(text, start, end)];
      LF !in shown && text[start..end] == shown + Terminator(end - start - |shown|)
  {
  }

  lemma LineShape(text: Bytes, ordinal: nat)
    requires ordinal < LineCount(text)
    ensures var start, end := Boundaries(text)[ordinal], Boundaries(text)[ordinal + 1];
      && start <= end <= |text|
      && var shown := text[start..DisplayEnd(text, start, end)];
         LF !in shown && text[start..end] == shown + Terminator(end - start - |shown|)
  {
    OneLfPerLine(text, ordinal, 0);
    var start, end := Boundaries(text)[ordinal], Boundaries(text)[ordinal + 1];
    forall at | start <= at < end - 1
      ensures text[at] != LF
    {
      OneLfPerLine(text, ordinal, at);
    }
    ShownPart(text, start, end);
  }

  lemma {:induction false} ContextInRange(text: Bytes, first: nat, last: nat)
    requires IsText(text) && 1 <= first && last <= LineCount(text)
    ensures LinesInRange(ContextLines(text, first, last))
    decreases last + 1 - first
  {
    if first <= last {
      ContextInRange(text, first + 1, last);
      HeadingBounds(text);
      LineShape(text, first - 1);
      var start, end := Boundaries(text)[first - 1], Boundaries(text)[first];
      assert LineInRange(ContextLine(first, start, text[start..DisplayEnd(text, start, end)]));
    }
  }

  /** Every page the server renders parses back, and different pages never share a text. */
  lemma ServedPagesParse(text: Bytes, id: SnapshotId, path: Bytes, startLine: nat, limit: nat, other: Page)
    requires IsText(text) && LF !in path && WellFormed(other)
    ensures var page := PageAt(text, id, path, startLine, limit);
      && ParsePage(RenderPage(page)) == Some(page)
      && (RenderPage(other) == RenderPage(page) ==> other == page)
  {
    var first := Max(startLine, 1);
    if first <= LineCount(text) {
      ContextInRange(text, first, Min(first + Max(limit, 1) - 1, LineCount(text)));
    }
    PageParses(PageAt(text, id, path, startLine, limit));
    PageParses(other);
  }

  // ---------------------------------------------------------------- the file from its pages

  /** Each line's content, then the terminator its distance to the next line calls for. */
  function Rebuild(lines: seq<ContextLine>, bytes: nat): Bytes {
    if |lines| == 0 then
      []
    else
      var line := lines[0];
      var next := if |lines| > 1 then lines[1].byte else bytes;
      line.content + Terminator(next - line.byte - |line.content|) + Rebuild(lines[1..], bytes)
  }

  /** The lines lie end to end between the boundaries, each with the terminator its length calls for. */
  ghost predicate Tiles(text: Bytes, lines: seq<ContextLine>, bounds: seq<nat>) {
    && |bounds| == |lines| + 1 && bounds[|lines|] == |text|
    && forall i {:trigger TileAt(text, lines, bounds, i)} :: 0 <= i < |lines| ==> TileAt(text, lines, bounds, i)
  }

  ghost predicate TileAt(text: Bytes, lines: seq<ContextLine>, bounds: seq<nat>, i: nat)
    requires i < |lines| && i + 1 < |bounds|
  {
    var line, start, end := lines[i], bounds[i], bounds[i + 1];
    && start <= end <= |text| && line.byte == start
    && text[start..end] == line.content + Terminator(end - start - |line.content|)
  }

  /** A line and its terminator before what follows them. */
  lemma LineBefore(text: Bytes, start: nat, end: nat, line: Bytes)
    requires start <= end <= |text| && text[start..end] == line
    ensures line + text[end..] == text[start..]
  {
    SliceOn(text, start, end);
  }

  lemma {:induction false} TilesRebuild(text: Bytes, lines: seq<ContextLine>, bounds: seq<nat>)
    requires Tiles(text, lines, bounds)
    ensures bounds[0] <= |text| && Rebuild(lines, |text|) == text[bounds[0]..]
    decreases |lines|
  {
    if |lines| == 0 {
      assert text[|text|..] == [];
    } else {
      var rest, start, end := lines[1..], bounds[0], bounds[1];
      assert TileAt(text, lines, bounds, 0);
      RestTiles(text, lines, bounds);
      TilesRebuild(text, rest, bounds[1..]);
      LineBefore(text, start, end, lines[0].content + Terminator(end - start - |lines[0].content|));
    }
  }

  lemma RestTiles(text: Bytes, lines: seq<ContextLine>, bounds: seq<nat>)
    requires Tiles(text, lines, bounds) && |lines| > 0
    ensures Tiles(text, lines[1..], bounds[1..])
    ensures |lines| > 1 ==> lines[1].byte == bounds[1]
    ensures |lines| == 1 ==> bounds[1] == |text|
  {
    forall i | 0 <= i < |lines| - 1
      ensures TileAt(text, lines[1..], bounds[1..], i)
    {
      assert TileAt(text, lines, bounds, i + 1);
    }
    if |lines| > 1 {
      assert TileAt(text, lines, bounds, 1);
    }
  }

  lemma {:induction false} ContextLineAt(text: Bytes, first: nat, last: nat, i: nat)
    requires 1 <= first && last <= LineCount(text) && first + i <= last
    ensures |ContextLines(text, first, last)| == last + 1 - first
    ensures Boundaries(text)[first + i - 1] <= Boundaries(text)[first + i] <= |text|
    ensures
      var start, end := Boundaries(text)[first + i - 1], Boundaries(text)[first + i];
      ContextLines(text, first, last)[i] ==
        ContextLine(first + i, start, text[start..DisplayEnd(text, start, end)])
    decreases i
  {
    BoundariesAscend(text);
    ContextLinesLength(text, first, last);
    if i > 0 {
      ContextLineAt(text, first + 1, last, i - 1);
    }
  }

  lemma ContextTiles(text: Bytes)
    ensures Tiles(text, ContextLines(text, 1, LineCount(text)), Boundaries(text))
  {
    LineStartsExact(text);
    ContextLinesLength(text, 1, LineCount(text));
    var lines, bounds := ContextLines(text, 1, LineCount(text)), Boundaries(text);
    forall i | 0 <= i < |lines|
      ensures TileAt(text, lines, bounds, i)
    {
      ContextLineAt(text, 1, LineCount(text), i);
      LineShape(text, i);
    }
  }

  /** All lines of a text rebuild it. */
  lemma AllLinesRebuild(text: Bytes)
    ensures Rebuild(ContextLines(text, 1, LineCount(text)), |text|) == text
  {
    LineStartsExact(text);
    ContextTiles(text);
    TilesRebuild(text, ContextLines(text, 1, LineCount(text)), Boundaries(text));
    assert text[0..] == text;
  }

  function ParsedLines(texts: seq<Bytes>): seq<ContextLine> {
    if |texts| == 0 then
      []
    else
      (match ParsePage(texts[0]) case None => [] case Some(page) => page.lines) + ParsedLines(texts[1..])
  }

  function RenderPages(pages: seq<Page>): seq<Bytes> {
    seq(|pages|, i requires 0 <= i < |pages| => RenderPage(pages[i]))
  }

  lemma {:induction false} LinesOfTexts(texts: seq<Bytes>, pages: seq<Page>)
    requires |texts| == |pages| && forall i :: 0 <= i < |texts| ==> ParsePage(texts[i]) == Some(pages[i])
    ensures ParsedLines(texts) == AllLines(pages)
  {
    if |pages| > 0 {
      LinesOfTexts(texts[1..], pages[1..]);
    }
  }

  lemma ParsedIsRendered(pages: seq<Page>)
    requires forall i :: 0 <= i < |pages| ==> WellFormed(pages[i])
    ensures ParsedLines(RenderPages(pages)) == AllLines(pages)
  {
    forall i | 0 <= i < |pages|
      ensures ParsePage(RenderPages(pages)[i]) == Some(pages[i])
    {
      PageParses(pages[i]);
    }
    LinesOfTexts(RenderPages(pages), pages);
  }

  lemma {:induction false} PagesOfSplit(pages: seq<Page>)
    requires LinesInRange(AllLines(pages))
    ensures forall i :: 0 <= i < |pages| ==> LinesInRange(pages[i].lines)
  {
    if |pages| > 0 {
      var all := AllLines(pages);
      assert forall i :: 0 <= i < |pages[0].lines| ==> pages[0].lines[i] == all[i];
      assert AllLines(pages[1..]) == all[|pages[0].lines|..];
      PagesOfSplit(pages[1..]);
    }
  }

  /**
   * Paging loses nothing: from the texts of a chain that starts at line one and ends in a page without a footer,
   * whatever its limits, the exact bytes of the file can be rebuilt — LF or CRLF per line, bare CRs and a missing
   * final LF included.
   */
  lemma PagingIsLossless(text: Bytes, id: SnapshotId, path: Bytes, first: ReadRequest, limits: seq<u16>)
    requires IsText(text) && LF !in path && StartsAt(text, id, first, 1)
    requires LegalLimit(first.limit) && AllLegal(limits)
    ensures Follow(text, id, path, first, limits).Ok?
    ensures var pages := Follow(text, id, path, first, limits).value; var texts := RenderPages(pages);
      && |pages| > 0 && ParsePage(texts[0]).Some?
      && (pages[|pages| - 1].next.None? ==>
            Rebuild(ParsedLines(texts), ParsePage(texts[0]).value.heading.bytes) == text)
  {
    ChainEnds(text, id, path, first, limits);
    CursorChain(text, id, path, first, limits, 1);
    var pages := Follow(text, id, path, first, limits).value;
    ContextInRange(text, 1, Min(first.limit + Sum(limits), LineCount(text)));
    PagesOfSplit(pages);
    ParsedIsRendered(pages);
    PageParses(pages[0]);
    AllLinesRebuild(text);
  }
}
