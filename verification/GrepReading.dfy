/** What a reader of a grep response gets back: each row's line, offset, mark and content, each file and its count. */
module GrepReading {
  import opened Numbers
  import opened Sequences
  import opened Text
  import opened Batch
  import opened Protocol
  import opened Tokens
  import opened Render
  import opened Paging
  import opened Grep
  import opened GrepOutput
  import opened GrepRows

  // ---------------------------------------------------------------- one row

  /** A row of a section as a reader sees it. */
  datatype SectionRow = Jump | Row(line: nat, byte: nat, isMatch: bool, content: Bytes)

  /** How many digits `s` starts with. */
  function DigitsIn(s: Bytes): (n: nat)
    ensures n <= |s|
  {
    if |s| == 0 || !IsDigit(s[0]) then 0 else 1 + DigitsIn(s[1..])
  }

  /** `LINE@BYTE:CONTENT`, `LINE@BYTE-CONTENT` or `--`. */
  function ReadRow(row: Bytes): Option<SectionRow> {
    if row == Ascii("--") then
      Some(Jump)
    else
      match Find(row, AT_SIGN)
      case None => None
      case Some(at) => if Canonical(row[..at]) then ReadMarked(DecimalValue(row[..at]), row[at + 1..]) else None
  }

  function ReadMarked(line: nat, s: Bytes): Option<SectionRow> {
    var n := DigitsIn(s);
    if n < |s| && Canonical(s[..n]) && (s[n] == Ascii(":")[0] || s[n] == Ascii("-")[0]) then
      Some(Row(line, DecimalValue(s[..n]), s[n] == Ascii(":")[0], s[n + 1..]))
    else
      None
  }

  lemma {:induction false} DigitsBefore(digits: Bytes, mark: byte, rest: Bytes)
    requires AllDigits(digits) && !IsDigit(mark)
    ensures DigitsIn(digits + [mark] + rest) == |digits|
  {
    if |digits| > 0 {
      DigitsBefore(digits[1..], mark, rest);
      assert (digits + [mark] + rest)[1..] == digits[1..] + [mark] + rest;
    }
  }

  lemma {:induction false} MarkedReads(line: nat, start: nat, mark: byte, content: Bytes)
    requires mark == 58 || mark == 45
    ensures ReadMarked(line, Decimal(start) + [mark] + content) == Some(Row(line, start, mark == 58, content))
  {
    var digits := Decimal(start);
    var s := digits + [mark] + content;
    DecimalRoundTrip(start);
    DigitsBefore(digits, mark, content);
    assert s[..|digits|] == digits && s[|digits|] == mark && s[|digits| + 1..] == content;
    assert Ascii(":")[0] as int == ':' as int && Ascii("-")[0] as int == '-' as int;
  }

  lemma {:induction false} NoJump(row: Bytes)
    requires |row| > 0 && IsDigit(row[0])
    ensures row != Ascii("--")
  {
    assert Ascii("--")[0] as int == '-' as int;
  }

  lemma {:induction false} NumberedReads(digits: Bytes, rest: Bytes)
    requires Canonical(digits)
    ensures ReadRow(digits + [AT_SIGN] + rest) == ReadMarked(DecimalValue(digits), rest)
  {
    NotInDigits(digits, AT_SIGN);
    FindSplits(digits, AT_SIGN, rest);
    NoJump(digits + [AT_SIGN] + rest);
  }

  lemma {:induction false} RowReads(line: nat, start: nat, mark: byte, content: Bytes)
    requires mark == 58 || mark == 45
    ensures ReadRow(Decimal(line) + [AT_SIGN] + Decimal(start) + [mark] + content) ==
      Some(Row(line, start, mark == 58, content))
  {
    LineRegrouped(Decimal(line), Decimal(start), mark, content);
    DecimalRoundTrip(line);
    NumberedReads(Decimal(line), Decimal(start) + [mark] + content);
    MarkedReads(line, start, mark, content);
  }

  // ---------------------------------------------------------------- complete rows

  /** The rows of a text that are ended by an LF. */
  function Complete(text: Bytes): seq<Bytes> {
    Split(text)[..|Split(text)| - 1]
  }

  lemma {:induction false} SplitAdds(text: Bytes, more: Bytes)
    requires Ended(text)
    ensures Split(text + more) == Complete(text) + Split(more)
    decreases |text|
  {
    if text == [] {
      assert text + more == more;
    } else {
      var at := Find(text, LF).value;
      var row, rest := text[..at], text[at + 1..];
      CutAt(text, at);
      SplitAdds(rest, more);
      SplitFirst(row, rest);
      SplitFirst(row, rest + more);
      RowRegrouped(row, rest, more);
      RowsRegrouped(row, Split(rest), Split(more));
    }
  }

  lemma {:induction false} RowsRegrouped(row: Bytes, rows: seq<Bytes>, more: seq<Bytes>)
    requires |rows| > 0
    ensures ([row] + rows)[..|[row] + rows| - 1] + more == [row] + (rows[..|rows| - 1] + more)
  {
  }

  lemma {:induction false} CompleteAdds(text: Bytes, more: Bytes)
    requires Ended(text)
    ensures Complete(text + more) == Complete(text) + Complete(more)
    ensures Ended(more) ==> Ended(text + more)
  {
    SplitAdds(text, more);
  }

  lemma {:induction false} CompleteRow(row: Bytes)
    requires LF !in row
    ensures Complete(row + [LF]) == [row] && Ended(row + [LF])
  {
    SplitFirst(row, []);
    assert Split([]) == [[]];
    assert row + [LF] + [] == row + [LF];
  }

  lemma {:induction false} CompleteNothing()
    ensures Complete([]) == []
  {
  }

  // ---------------------------------------------------------------- a section

  ghost predicate Reads(rows: seq<Bytes>, values: seq<SectionRow>) {
    |rows| == |values| && forall i :: 0 <= i < |rows| ==> ReadRow(rows[i]) == Some(values[i])
  }

  /** Complete rows that read as these. */
  ghost predicate ReadsAs(text: Bytes, values: seq<SectionRow>) {
    Ended(text) && Reads(Complete(text), values)
  }

  function ReadBody(body: Bytes): Option<seq<SectionRow>> {
    All(Map(ReadRow, Complete(body)))
  }

  lemma {:induction false} ReadsAll(body: Bytes, values: seq<SectionRow>)
    requires ReadsAs(body, values)
    ensures ReadBody(body) == Some(values)
  {
    AllThere(Map(ReadRow, Complete(body)), values);
  }

  /** The row of a line: its number, the byte where it starts, whether it is a match, and what a read shows of it. */
  function RowOf(text: Bytes, matched: seq<nat>, line: nat): SectionRow
    requires 1 <= line <= LineCount(text)
  {
    ContextLinesLength(text, line, line);
    Row(line, LineStarts(text)[line - 1], line in matched, ContextLines(text, line, line)[0].content)
  }

  /** The rows of the lines in order, with a jump between two lines that are not neighbours. */
  function RowsOf(text: Bytes, matched: seq<nat>, lines: seq<nat>): seq<SectionRow>
    requires LinesOf(text, lines)
  {
    var n := |lines|;
    if n == 0 then []
    else NextRows(RowsOf(text, matched, lines[..n - 1]), GapBefore(lines), RowOf(text, matched, lines[n - 1]))
  }

  function NextRows(rows: seq<SectionRow>, gap: bool, row: SectionRow): seq<SectionRow> {
    rows + (if gap then [Jump] else []) + [row]
  }

  lemma {:induction false} HitRowReads(text: Bytes, matched: seq<nat>, line: nat)
    requires 1 <= line <= LineCount(text)
    ensures ReadsAs(RenderHitLine(text, matched, line), [RowOf(text, matched, line)])
  {
    LineStartsExact(text);
    LineShape(text, line - 1);
    ContextLineAt(text, line, line, 0);
    var start, end := Boundaries(text)[line - 1], Boundaries(text)[line];
    MarkedRowReads(line, start, if line in matched then 58 else 45, text[start..DisplayEnd(text, start, end)]);
  }

  lemma {:induction false} MarkedRowReads(line: nat, start: nat, mark: byte, content: Bytes)
    requires (mark == 58 || mark == 45) && LF !in content
    ensures var row := Decimal(line) + [AT_SIGN] + Decimal(start) + [mark] + content + [LF];
      ReadsAs(row, [Row(line, start, mark == 58, content)])
  {
    RowReads(line, start, mark, content);
    NotInDigits(Decimal(line), LF);
    NotInDigits(Decimal(start), LF);
    CompleteRow(Decimal(line) + [AT_SIGN] + Decimal(start) + [mark] + content);
  }

  lemma {:induction false} GapReads()
    ensures ReadsAs(GAP, [Jump])
  {
    CompleteRow(Ascii("--"));
    assert GAP == Ascii("--") + [LF];
  }

  lemma {:induction false} ReadsAdd(text: Bytes, rows: seq<SectionRow>, more: Bytes, moreRows: seq<SectionRow>)
    requires ReadsAs(text, rows) && ReadsAs(more, moreRows)
    ensures ReadsAs(text + more, rows + moreRows)
  {
    CompleteAdds(text, more);
  }

  lemma {:induction false} NextReads(done: Bytes, rows: seq<SectionRow>, gap: bool, hit: Bytes, row: SectionRow)
    requires ReadsAs(done, rows) && ReadsAs(hit, [row])
    ensures ReadsAs(done + (if gap then GAP else []) + hit, NextRows(rows, gap, row))
  {
    GapReads();
    CompleteNothing();
    var between, jump := if gap then GAP else [], if gap then [Jump] else [];
    ReadsAdd(done, rows, between, jump);
    ReadsAdd(done + between, rows + jump, hit, [row]);
  }

  lemma {:induction false} BodyReads(text: Bytes, matched: seq<nat>, lines: seq<nat>)
    requires LinesOf(text, lines)
    ensures ReadsAs(Body(text, matched, lines), RowsOf(text, matched, lines))
    decreases |lines|
  {
    var n := |lines|;
    if n == 0 {
      CompleteNothing();
    } else {
      BodyReads(text, matched, lines[..n - 1]);
      BodyStep(text, matched, lines);
      HitRowReads(text, matched, lines[n - 1]);
      NextReads(Body(text, matched, lines[..n - 1]), RowsOf(text, matched, lines[..n - 1]), GapBefore(lines),
        RenderHitLine(text, matched, lines[n - 1]), RowOf(text, matched, lines[n - 1]));
    }
  }

  // ---------------------------------------------------------------- what the rows of a section say

  /** The line numbers of the rows, in order. */
  function LineNumbers(rows: seq<SectionRow>): seq<nat> {
    var m := |rows|;
    if m == 0 then []
    else LineNumbers(rows[..m - 1]) + (if rows[m - 1].Row? then [rows[m - 1].line] else [])
  }

  /** A jump stands between two lines that are no neighbours; two rows without one between them are neighbours. */
  predicate GapAt(rows: seq<SectionRow>, i: nat)
    requires i < |rows|
  {
    if rows[i].Jump? then
      && 0 < i < |rows| - 1 && rows[i - 1].Row? && rows[i + 1].Row?
      && rows[i - 1].line + 1 < rows[i + 1].line
    else
      i + 1 < |rows| && rows[i + 1].Row? ==> rows[i + 1].line == rows[i].line + 1
  }

  ghost predicate JumpsAtGaps(rows: seq<SectionRow>) {
    forall i: nat {:trigger GapAt(rows, i)} :: i < |rows| ==> GapAt(rows, i)
  }

  /** The rows end in the row of this line. */
  predicate EndsIn(rows: seq<SectionRow>, line: nat) {
    |rows| > 0 && rows[|rows| - 1].Row? && rows[|rows| - 1].line == line
  }

  lemma {:induction false} NextJumps(rows: seq<SectionRow>, last: nat, gap: bool, row: SectionRow)
    requires JumpsAtGaps(rows) && (rows == [] || EndsIn(rows, last)) && row.Row?
    requires if gap then rows != [] && last + 1 < row.line else rows == [] || row.line == last + 1
    ensures JumpsAtGaps(NextRows(rows, gap, row)) && EndsIn(NextRows(rows, gap, row), row.line)
  {
    var more := NextRows(rows, gap, row);
    forall i: nat | i < |more|
      ensures GapAt(more, i)
    {
      if i < |rows| {
        assert GapAt(rows, i);
      }
    }
  }

  lemma {:induction false} NextNumber(rows: seq<SectionRow>, gap: bool, row: SectionRow)
    requires row.Row?
    ensures LineNumbers(NextRows(rows, gap, row)) == LineNumbers(rows) + [row.line]
  {
    var more := NextRows(rows, gap, row);
    if gap {
      assert more[..|more| - 1] == rows + [Jump] && (rows + [Jump])[..|rows|] == rows;
    } else {
      assert more[..|more| - 1] == rows;
    }
  }

  /** The rows are those of these lines, in order, with jumps where they are due. */
  ghost predicate InOrder(rows: seq<SectionRow>, lines: seq<nat>) {
    && LineNumbers(rows) == lines && JumpsAtGaps(rows)
    && if lines == [] then rows == [] else EndsIn(rows, lines[|lines| - 1])
  }

  lemma {:induction false} NextInOrder(rows: seq<SectionRow>, lines: seq<nat>, row: SectionRow)
    requires |lines| > 0 && InOrder(rows, lines[..|lines| - 1]) && Ascending(lines)
    requires row.Row? && row.line == lines[|lines| - 1]
    ensures InOrder(NextRows(rows, GapBefore(lines), row), lines)
  {
    var n := |lines|;
    NextJumps(rows, if n > 1 then lines[n - 2] else if row.line > 0 then row.line - 1 else 0, GapBefore(lines), row);
    NextNumber(rows, GapBefore(lines), row);
    assert lines == lines[..n - 1] + [lines[n - 1]];
  }

  lemma {:induction false} RowsAscend(text: Bytes, matched: seq<nat>, lines: seq<nat>)
    requires LinesOf(text, lines) && Ascending(lines)
    ensures InOrder(RowsOf(text, matched, lines), lines)
    decreases |lines|
  {
    var n := |lines|;
    if n > 0 {
      RowsAscend(text, matched, lines[..n - 1]);
      NextInOrder(RowsOf(text, matched, lines[..n - 1]), lines, RowOf(text, matched, lines[n - 1]));
    }
  }

  /** A row that is no jump says what is true of its line; its line and byte are a valid position. */
  ghost predicate RowIsTrue(row: SectionRow, text: Bytes, matched: seq<nat>) {
    row.Row? ==>
      && 1 <= row.line <= LineCount(text) == |ContextLines(text, 1, LineCount(text))|
      && row.line <= U64_MAX && row.byte <= U64_MAX
      && BoundaryOrdinal(text, At(row.line, row.byte)) == Ok(row.line - 1)
      && (row.isMatch <==> row.line in matched)
      && row.content == ContextLines(text, 1, LineCount(text))[row.line - 1].content
  }

  lemma {:induction false} RowOfIsTrue(text: Bytes, matched: seq<nat>, line: nat)
    requires IsText(text) && 1 <= line <= LineCount(text)
    ensures RowIsTrue(RowOf(text, matched, line), text, matched)
  {
    HeadingBounds(text);
    LineStartsExact(text);
    assert LineStarts(text)[line - 1] in LineStarts(text);
    ContextLineAt(text, line, line, 0);
    ContextLineAt(text, 1, LineCount(text), line - 1);
  }

  lemma {:induction false} RowsAreTrue(text: Bytes, matched: seq<nat>, lines: seq<nat>)
    requires IsText(text) && LinesOf(text, lines)
    ensures forall row :: row in RowsOf(text, matched, lines) ==> RowIsTrue(row, text, matched)
    decreases |lines|
  {
    var n := |lines|;
    if n > 0 {
      RowsAreTrue(text, matched, lines[..n - 1]);
      RowOfIsTrue(text, matched, lines[n - 1]);
    }
  }

  /** The searcher numbers every line that starts before the end of the file. */
  lemma {:induction false} SearchableExactly(text: Bytes, line: nat)
    requires 1 <= line <= LineCount(text)
    ensures line <= Searchable(text) <==> LineStarts(text)[line - 1] < |text|
  {
    LineStartsExact(text);
    var starts := LineStarts(text);
    assert starts[line - 1] in starts && starts[|starts| - 1] in starts;
    if line < |starts| {
      assert starts[line - 1] < starts[|starts| - 1];
    }
    if |text| > 0 && text[|text| - 1] == LF {
      assert IsLineStart(text, |text|);
    }
  }

  /** Line `line` has bytes of its own and is at most `before` lines before or `after` lines after a match. */
  ghost predicate InContext(text: Bytes, matched: seq<nat>, before: nat, after: nat, line: nat) {
    && 1 <= line <= LineCount(text) && LineStarts(text)[line - 1] < |text|
    && exists i :: 0 <= i < |matched| && matched[i] - before <= line <= matched[i] + after
  }

  lemma {:induction false} ContextShown(text: Bytes, matched: seq<nat>, before: nat, after: nat, line: nat)
    ensures line in Shown(matched, before, after, Searchable(text)) <==> InContext(text, matched, before, after, line)
  {
    ShownExactly(matched, before, after, Searchable(text));
    LineStartsExact(text);
    if 1 <= line <= LineCount(text) {
      SearchableExactly(text, line);
    }
  }

  /**
   * A section reads back row by row. Each row is a jump or the row of a line: its number and a byte that form a
   * valid position, the mark of a match exactly if it is one, and what a read shows of the line. The line numbers
   * ascend and are exactly those of the lines in context, with jumps exactly where they are not consecutive.
   */
  lemma {:induction false} SectionReads(text: Bytes, matched: seq<nat>, before: nat, after: nat)
    returns (rows: seq<SectionRow>)
    requires IsText(text)
    ensures ReadBody(SectionBody(text, matched, before, after)) == Some(rows)
    ensures forall row :: row in rows ==> RowIsTrue(row, text, matched)
    ensures JumpsAtGaps(rows) && Ascending(LineNumbers(rows))
    ensures forall line: nat :: line in LineNumbers(rows) <==> InContext(text, matched, before, after, line)
  {
    LineStartsExact(text);
    var lines := Shown(matched, before, after, Searchable(text));
    ShownInRange(text, matched, before, after, Searchable(text));
    ShownExactly(matched, before, after, Searchable(text));
    rows := RowsOf(text, matched, lines);
    BodyReads(text, matched, lines);
    ReadsAll(Body(text, matched, lines), rows);
    RowsAscend(text, matched, lines);
    RowsAreTrue(text, matched, lines);
    forall line: nat
      ensures line in LineNumbers(rows) <==> InContext(text, matched, before, after, line)
    {
      ContextShown(text, matched, before, after, line);
    }
  }

  // ---------------------------------------------------------------- the summary

  /** A canonical decimal ended by a space, and what follows from the space on. */
  function TakeNumber(s: Bytes): Option<(nat, Bytes)> {
    match Find(s, SPACE)
    case None => None
    case Some(at) => if Canonical(s[..at]) then Some((DecimalValue(s[..at]), s[at..])) else None
  }

  function TakeFlag(s: Bytes): Option<(bool, Bytes)> {
    match Strip(s, Ascii("true"))
    case Some(rest) => Some((true, rest))
    case None =>
      match Strip(s, Ascii("false"))
      case Some(rest) => Some((false, rest))
      case None => None
  }

  function NumberAfter(prefix: Bytes, s: Bytes): Option<(nat, Bytes)> {
    match Strip(s, prefix)
    case None => None
    case Some(rest) => TakeNumber(rest)
  }

  function FlagAfter(prefix: Bytes, s: Bytes): Option<(bool, Bytes)> {
    match Strip(s, prefix)
    case None => None
    case Some(rest) => TakeFlag(rest)
  }

  function LastNumberAfter(prefix: Bytes, s: Bytes): Option<nat> {
    match Strip(s, prefix)
    case None => None
    case Some(rest) =>
      match StripEnd(rest, CLOSE)
      case None => None
      case Some(digits) => if Canonical(digits) then Some(DecimalValue(digits)) else None
  }

  function ReadSummary(row: Bytes): Option<Summary> {
    match NumberAfter(Ascii("[hashline matches="), row)
    case None => None
    case Some((matches, s)) =>
      match FlagAfter(Ascii(" truncated="), s)
      case None => None
      case Some((truncated, s)) => ReadSkipped(matches, truncated, s)
  }

  function ReadSkipped(matches: nat, truncated: bool, s: Bytes): Option<Summary> {
    match NumberAfter(Ascii(" skipped_binary="), s)
    case None => None
    case Some((binary, s)) =>
      match LastNumberAfter(Ascii(" skipped_invalid_utf8="), s)
      case None => None
      case Some(invalid) => Some(Summary(matches, truncated, binary, invalid))
  }

  lemma {:induction false} TakesNumber(digits: Bytes, rest: Bytes)
    requires Canonical(digits) && |rest| > 0 && rest[0] == SPACE
    ensures TakeNumber(digits + rest) == Some((DecimalValue(digits), rest))
  {
    NotInDigits(digits, SPACE);
    FindSplits(digits, SPACE, rest[1..]);
    assert digits + rest == digits + [SPACE] + rest[1..];
    assert (digits + rest)[..|digits|] == digits && (digits + rest)[|digits|..] == rest;
  }

  lemma {:induction false} TakesNumberAfter(prefix: Bytes, n: nat, rest: Bytes)
    requires |rest| > 0 && rest[0] == SPACE
    ensures NumberAfter(prefix, prefix + (Decimal(n) + rest)) == Some((n, rest))
  {
    StripConcat(prefix, Decimal(n) + rest);
    DecimalRoundTrip(n);
    TakesNumber(Decimal(n), rest);
  }

  lemma {:induction false} TakesFlag(flag: bool, rest: Bytes)
    ensures TakeFlag(RenderBool(flag) + rest) == Some((flag, rest))
  {
    StripConcat(RenderBool(flag), rest);
    if !flag {
      assert (RenderBool(false) + rest)[..4] == Ascii("false")[..4];
      assert Ascii("false")[0] as int == 'f' as int && Ascii("true")[0] as int == 't' as int;
    }
  }

  lemma {:induction false} TakesFlagAfter(prefix: Bytes, flag: bool, rest: Bytes)
    ensures FlagAfter(prefix, prefix + (RenderBool(flag) + rest)) == Some((flag, rest))
  {
    StripConcat(prefix, RenderBool(flag) + rest);
    TakesFlag(flag, rest);
  }

  lemma {:induction false} TakesLastNumber(prefix: Bytes, n: nat)
    ensures LastNumberAfter(prefix, prefix + (Decimal(n) + CLOSE)) == Some(n)
  {
    StripConcat(prefix, Decimal(n) + CLOSE);
    StripConcat(CLOSE, Decimal(n));
    DecimalRoundTrip(n);
  }

  lemma {:induction false} SkippedReads(matches: nat, truncated: bool, binary: nat, invalid: nat)
    ensures ReadSkipped(matches, truncated, Ascii(" skipped_binary=") + (Decimal(binary) +
      (Ascii(" skipped_invalid_utf8=") + (Decimal(invalid) + CLOSE)))) ==
      Some(Summary(matches, truncated, binary, invalid))
  {
    var last := Ascii(" skipped_invalid_utf8=") + (Decimal(invalid) + CLOSE);
    StartsWithSpace(Ascii(" skipped_invalid_utf8="), Decimal(invalid) + CLOSE);
    TakesNumberAfter(Ascii(" skipped_binary="), binary, last);
    TakesLastNumber(Ascii(" skipped_invalid_utf8="), invalid);
  }

  /** The summary reads back: matches, truncation, and the two counts of skipped files, each in its place. */
  lemma {:induction false} SummaryReads(s: Summary)
    ensures ReadSummary(RenderSummary(s)) == Some(s)
  {
    var last := Ascii(" skipped_invalid_utf8=") + (Decimal(s.skippedInvalidUtf8) + CLOSE);
    var skipped := Ascii(" skipped_binary=") + (Decimal(s.skippedBinary) + last);
    var flag := Ascii(" truncated=") + (RenderBool(s.truncated) + skipped);
    StartsWithSpace(Ascii(" truncated="), RenderBool(s.truncated) + skipped);
    TakesNumberAfter(Ascii("[hashline matches="), s.matches, flag);
    TakesFlagAfter(Ascii(" truncated="), s.truncated, skipped);
    SkippedReads(s.matches, s.truncated, s.skippedBinary, s.skippedInvalidUtf8);
  }

  // ---------------------------------------------------------------- the response

  /** A row `NAME: COUNT`; the name may hold anything, colons and spaces included. */
  function ReadCount(row: Bytes): Option<(Bytes, nat)> {
    ReadNameAndCount(row, Ascii(": "))
  }

  function ReadNameAndCount(row: Bytes, separator: Bytes): Option<(Bytes, nat)> {
    var start := |row| - DigitsAtEnd(row);
    var digits := row[start..];
    match StripEnd(row[..start], separator)
    case Some(name) => if Canonical(digits) then Some((name, DecimalValue(digits))) else None
    case None => None
  }

  function DigitsAtEnd(s: Bytes): (n: nat)
    ensures n <= |s|
  {
    if |s| == 0 || !IsDigit(s[|s| - 1]) then 0 else 1 + DigitsAtEnd(s[..|s| - 1])
  }

  lemma {:induction false} DigitsAfter(head: Bytes, digits: Bytes)
    requires AllDigits(digits) && |head| > 0 && !IsDigit(head[|head| - 1])
    ensures DigitsAtEnd(head + digits) == |digits|
    decreases |digits|
  {
    if |digits| == 0 {
      assert head + digits == head;
    } else {
      var init := digits[..|digits| - 1];
      assert (head + digits)[..|head + digits| - 1] == head + init;
      DigitsAfter(head, init);
    }
  }

  lemma {:induction false} CountReads(name: Bytes, count: nat)
    ensures ReadCount(name + Ascii(": ") + Decimal(count)) == Some((name, count))
  {
    var head, digits := name + Ascii(": "), Decimal(count);
    DecimalRoundTrip(count);
    assert Ascii(": ")[1] as int == ' ' as int;
    DigitsAfter(head, digits);
    assert (head + digits)[..|head|] == head && (head + digits)[|head|..] == digits;
    StripConcat(Ascii(": "), name);
  }

  /** The rows of a hit in a response. */
  function RowsOfHit(mode: OutputMode, hit: FileHit): seq<Bytes> {
    match mode
    case Content => [hit.header] + Complete(hit.body) + [[]]
    case FilesWithMatches => [hit.rel]
    case Count => [hit.rel + Ascii(": ") + Decimal(hit.matches)]
  }

  /** The rows of all hits, in order. */
  function HitRows(mode: OutputMode, hits: seq<FileHit>): seq<Bytes> {
    var n := |hits|;
    if n == 0 then [] else HitRows(mode, hits[..n - 1]) + RowsOfHit(mode, hits[n - 1])
  }

  /** Headers and names take one row, and bodies are complete rows. */
  predicate Tidy(mode: OutputMode, hit: FileHit) {
    if mode == Content then LF !in hit.header && Ended(hit.body) else LF !in hit.rel
  }

  predicate AllTidy(mode: OutputMode, hits: seq<FileHit>) {
    forall i :: 0 <= i < |hits| ==> Tidy(mode, hits[i])
  }

  /** Sections are tidy whatever their lines hold. */
  lemma {:induction false} SectionsAreTidy(hits: seq<FileHit>, files: seq<Searched>, before: nat, after: nat)
    requires AllSections(hits, files, before, after)
    ensures AllTidy(Content, hits)
  {
    forall i | 0 <= i < |hits|
      ensures Tidy(Content, hits[i])
    {
      assert IsSection(hits[i], files[i], before, after);
      var text, matched := files[i].text, files[i].matched;
      LineStartsExact(text);
      ShownInRange(text, matched, before, after, Searchable(text));
      BodyReads(text, matched, Shown(matched, before, after, Searchable(text)));
      var h: Heading :| LF !in h.path && hits[i].header == RenderHeading(h);
      HeaderRow(h);
    }
  }

  lemma {:induction false} ItemReads(mode: OutputMode, hit: FileHit)
    requires Tidy(mode, hit)
    ensures Ended(Item(mode, hit))
    ensures Complete(Item(mode, hit) + (if mode == Content then [LF] else [])) == RowsOfHit(mode, hit)
    ensures Ended(Item(mode, hit) + (if mode == Content then [LF] else []))
  {
    match mode
    case Content =>
      CompleteRow(hit.header);
      CompleteAdds(hit.header + [LF], hit.body);
      CompleteRow([]);
      assert [] + [LF] == [LF];
      CompleteAdds(hit.header + [LF] + hit.body, [LF]);
    case FilesWithMatches =>
      CompleteRow(hit.rel);
      assert hit.rel + [LF] + [] == hit.rel + [LF];
    case Count =>
      NotInDigits(Decimal(hit.matches), LF);
      var row := hit.rel + Ascii(": ") + Decimal(hit.matches);
      CompleteRow(row);
      assert row + [LF] + [] == row + [LF];
  }

  lemma {:induction false} EndedGrows(mode: OutputMode, hits: seq<FileHit>)
    requires |hits| > 0
    ensures EndedListing(mode, hits) == EndedListing(mode, hits[..|hits| - 1]) +
      (Item(mode, hits[|hits| - 1]) + (if mode == Content then [LF] else []))
  {
    var n := |hits|;
    var done, item := Listing(mode, hits[..n - 1]), Item(mode, hits[n - 1]);
    if n == 1 {
      assert hits[..0] == [];
    }
  }

  lemma {:induction false} ListingReads(mode: OutputMode, hits: seq<FileHit>)
    requires AllTidy(mode, hits)
    ensures Ended(EndedListing(mode, hits)) && Complete(EndedListing(mode, hits)) == HitRows(mode, hits)
    decreases |hits|
  {
    var n := |hits|;
    if n == 0 {
      CompleteNothing();
    } else {
      ListingReads(mode, hits[..n - 1]);
      EndedGrows(mode, hits);
      ItemReads(mode, hits[n - 1]);
      CompleteAdds(EndedListing(mode, hits[..n - 1]),
        Item(mode, hits[n - 1]) + (if mode == Content then [LF] else []));
    }
  }

  /** A response is the rows of its hits and one last row, which reads back to the summary. */
  lemma {:induction false} ResponseReads(
    out: Bytes, mode: OutputMode, hits: seq<FileHit>, skippedBinary: nat, skippedInvalidUtf8: nat, k: nat)
    requires AllTidy(mode, hits) && Responds(out, mode, hits, skippedBinary, skippedInvalidUtf8, k)
    ensures Complete(out) == HitRows(mode, hits[..k])
    ensures ReadSummary(Split(out)[|Split(out)| - 1]) ==
      Some(Summary(TotalMatches(hits[..k]), k < |hits|, skippedBinary, skippedInvalidUtf8))
  {
    var summary := Summary(TotalMatches(hits[..k]), k < |hits|, skippedBinary, skippedInvalidUtf8);
    ListingReads(mode, hits[..k]);
    SummaryRow(summary);
    SplitAdds(EndedListing(mode, hits[..k]), RenderSummary(summary));
    assert Split(RenderSummary(summary)) == [RenderSummary(summary)];
    SummaryReads(summary);
  }

  lemma {:induction false} OneRowEach(mode: OutputMode, hits: seq<FileHit>)
    requires mode != Content
    ensures |HitRows(mode, hits)| == |hits|
    ensures forall i :: 0 <= i < |hits| ==> [HitRows(mode, hits)[i]] == RowsOfHit(mode, hits[i])
    decreases |hits|
  {
    if |hits| > 0 {
      OneRowEach(mode, hits[..|hits| - 1]);
    }
  }

  /** The file list reads back to the names, one row each. */
  lemma {:induction false} FileListReads(
    out: Bytes, hits: seq<FileHit>, skippedBinary: nat, skippedInvalidUtf8: nat, k: nat)
    requires AllTidy(FilesWithMatches, hits)
    requires Responds(out, FilesWithMatches, hits, skippedBinary, skippedInvalidUtf8, k)
    ensures |Complete(out)| == k && forall i :: 0 <= i < k ==> Complete(out)[i] == hits[i].rel
  {
    ResponseReads(out, FilesWithMatches, hits, skippedBinary, skippedInvalidUtf8, k);
    OneRowEach(FilesWithMatches, hits[..k]);
  }

  /** The count rows read back to the names and their match counts, one row each. */
  lemma {:induction false} CountRowsRead(
    out: Bytes, hits: seq<FileHit>, skippedBinary: nat, skippedInvalidUtf8: nat, k: nat)
    requires AllTidy(Count, hits) && Responds(out, Count, hits, skippedBinary, skippedInvalidUtf8, k)
    ensures |Complete(out)| == k
    ensures forall i :: 0 <= i < k ==> ReadCount(Complete(out)[i]) == Some((hits[i].rel, hits[i].matches))
  {
    ResponseReads(out, Count, hits, skippedBinary, skippedInvalidUtf8, k);
    OneRowEach(Count, hits[..k]);
    forall i | 0 <= i < k
      ensures ReadCount(Complete(out)[i]) == Some((hits[i].rel, hits[i].matches))
    {
      CountReads(hits[i].rel, hits[i].matches);
    }
  }
}
