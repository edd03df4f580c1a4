/** What a reader of a grep response counts: its match rows are the matches its summary reports. */
module GrepRows {
  import opened Numbers
  import opened Text
  import opened Batch
  import opened Protocol
  import opened Tokens
  import opened Render
  import opened Paging
  import opened Spans
  import opened Grep
  import opened GrepOutput

  // ---------------------------------------------------------------- rows of a text

  /** A row `LINE@BYTE:CONTENT`. */
  predicate IsMatchRow(row: Bytes) {
    match Find(row, AT_SIGN)
    case None => false
    case Some(at) =>
      && Canonical(row[..at])
      && match Find(row[at + 1..], COLON)
         case None => false
         case Some(end) => Canonical(row[at + 1..][..end])
  }

  function MatchRowsOf(rows: seq<Bytes>): nat {
    if |rows| == 0 then 0 else (if IsMatchRow(rows[0]) then 1 else 0) + MatchRowsOf(rows[1..])
  }

  /** The match rows between the LFs of a text. */
  function MatchRows(text: Bytes): nat {
    MatchRowsOf(Split(text))
  }

  lemma FirstRow(row: Bytes, rest: Bytes)
    requires LF !in row
    ensures MatchRows(row + [LF] + rest) == (if IsMatchRow(row) then 1 else 0) + MatchRows(rest)
  {
    SplitFirst(row, rest);
    assert ([row] + Split(rest))[1..] == Split(rest);
  }

  lemma OnlyRow(row: Bytes)
    requires LF !in row
    ensures MatchRows(row) == if IsMatchRow(row) then 1 else 0
  {
    assert Split(row) == [row];
    assert MatchRowsOf([row][1..]) == 0;
  }

  /** Complete rows. */
  predicate Ended(text: Bytes) {
    text == [] || text[|text| - 1] == LF
  }

  lemma EndedRow(row: Bytes)
    requires LF !in row
    ensures Ended(row + [LF]) && MatchRows(row + [LF]) == if IsMatchRow(row) then 1 else 0
  {
    FirstRow(row, []);
    OnlyRow([]);
    assert row + [LF] + [] == row + [LF];
  }

  lemma BlankRow()
    ensures Ended([LF]) && MatchRows([LF]) == 0 && MatchRows([]) == 0
  {
    EndedRow([]);
    OnlyRow([]);
    assert [] + [LF] == [LF];
  }

  lemma CutAt(text: Bytes, at: nat)
    requires at < |text| && text[at] == LF
    ensures text == text[..at] + [LF] + text[at + 1..]
    ensures Ended(text) ==> Ended(text[at + 1..])
  {
  }

  lemma RowRegrouped(row: Bytes, rest: Bytes, more: Bytes)
    ensures row + [LF] + rest + more == row + [LF] + (rest + more)
  {
  }

  /** Rows after complete rows add up. */
  lemma {:induction false} RowsAdd(text: Bytes, more: Bytes)
    requires Ended(text)
    ensures MatchRows(text + more) == MatchRows(text) + MatchRows(more)
    ensures Ended(more) ==> Ended(text + more)
    decreases |text|
  {
    if text == [] {
      OnlyRow([]);
      assert text + more == more;
    } else {
      var at := Find(text, LF).value;
      var row, rest := text[..at], text[at + 1..];
      CutAt(text, at);
      RowsAdd(rest, more);
      FirstRow(row, rest);
      FirstRow(row, rest + more);
      RowRegrouped(row, rest, more);
    }
  }

  /** So do three parts, of which the middle one holds no match row. */
  lemma PartsAdd(done: Bytes, gap: Bytes, last: Bytes)
    requires Ended(done) && Ended(gap) && MatchRows(gap) == 0
    ensures MatchRows(done + gap + last) == MatchRows(done) + MatchRows(last)
    ensures Ended(last) ==> Ended(done + gap + last)
  {
    RowsAdd(done, gap);
    RowsAdd(done + gap, last);
  }

  // ---------------------------------------------------------------- rows of a section

  /** The separator after the byte offset decides how a line is marked, whatever the line holds. */
  lemma MarkDecides(line: nat, start: nat, mark: byte, content: Bytes)
    requires mark == COLON || mark == DASH
    ensures IsMatchRow(Decimal(line) + [AT_SIGN] + Decimal(start) + [mark] + content) <==> mark == COLON
  {
    var digits, rest := Decimal(start), Decimal(start) + [mark] + content;
    LineRegrouped(Decimal(line), digits, mark, content);
    DecimalRoundTrip(line);
    DecimalRoundTrip(start);
    NotInDigits(Decimal(line), AT_SIGN);
    RowIsMatch(Decimal(line), rest);
    ColonAfter(digits, mark, content);
  }

  lemma LineRegrouped(line: Bytes, digits: Bytes, mark: byte, content: Bytes)
    ensures line + [AT_SIGN] + digits + [mark] + content == line + [AT_SIGN] + (digits + [mark] + content)
  {
  }

  lemma RowIsMatch(line: Bytes, rest: Bytes)
    requires AT_SIGN !in line && Canonical(line)
    ensures IsMatchRow(line + [AT_SIGN] + rest) <==>
      match Find(rest, COLON)
      case None => false
      case Some(end) => Canonical(rest[..end])
  {
    FindSplits(line, AT_SIGN, rest);
  }

  lemma ColonAfter(digits: Bytes, mark: byte, content: Bytes)
    requires Canonical(digits) && (mark == COLON || mark == DASH)
    ensures mark == COLON ==>
      && Find(digits + [mark] + content, COLON) == Some(|digits|)
      && (digits + [mark] + content)[..|digits|] == digits
    ensures mark == DASH ==>
      match Find(digits + [mark] + content, COLON)
      case None => true
      case Some(end) => !Canonical((digits + [mark] + content)[..end])
  {
    var rest := digits + [mark] + content;
    NotInDigits(digits, COLON);
    if mark == COLON {
      FindSplits(digits, COLON, content);
    } else if Find(rest, COLON).Some? {
      var end := Find(rest, COLON).value;
      assert rest[|digits|] == DASH && forall i :: 0 <= i < |digits| ==> rest[i] == digits[i];
      assert end > |digits|;
      assert rest[..end][|digits|] == DASH;
    }
  }

  lemma MarkedRow(line: nat, start: nat, mark: byte, content: Bytes)
    requires (mark == COLON || mark == DASH) && LF !in content
    ensures var row := Decimal(line) + [AT_SIGN] + Decimal(start) + [mark] + content + [LF];
      Ended(row) && MatchRows(row) == if mark == COLON then 1 else 0
  {
    MarkDecides(line, start, mark, content);
    NotInDigits(Decimal(line), LF);
    NotInDigits(Decimal(start), LF);
    EndedRow(Decimal(line) + [AT_SIGN] + Decimal(start) + [mark] + content);
  }

  /** One row of a section: a match row exactly for a match. */
  lemma HitRow(text: Bytes, matched: seq<nat>, line: nat)
    requires 1 <= line <= LineCount(text)
    ensures Ended(RenderHitLine(text, matched, line))
    ensures MatchRows(RenderHitLine(text, matched, line)) == if line in matched then 1 else 0
  {
    BoundariesAscend(text);
    LineShape(text, line - 1);
    var start, end := Boundaries(text)[line - 1], Boundaries(text)[line];
    MarkedRow(line, start, if line in matched then COLON else DASH, text[start..DisplayEnd(text, start, end)]);
  }

  lemma GapRow()
    ensures Ended(GAP) && MatchRows(GAP) == 0
  {
    EndedRow([DASH, DASH]);
    assert GAP == [DASH, DASH] + [LF];
    assert AT_SIGN !in [DASH, DASH];
  }

  /** Complete rows, of which so many are match rows. */
  predicate HasMatchRows(text: Bytes, count: nat) {
    Ended(text) && MatchRows(text) == count
  }

  lemma {:induction false} NextHasMatchRows(all: Bytes, done: Bytes, gap: bool, row: Bytes, before: nat, mark: nat)
    requires all == done + (if gap then GAP else []) + row
    requires HasMatchRows(done, before) && HasMatchRows(row, mark)
    ensures HasMatchRows(all, before + mark)
  {
    GapRow();
    OnlyRow([]);
    PartsAdd(done, if gap then GAP else [], row);
  }

  lemma {:induction false} CountStep(lines: seq<nat>, matched: seq<nat>)
    requires |lines| > 0
    ensures var n := |lines|;
      CountMatches(lines, matched) ==
        CountMatches(lines[..n - 1], matched) + (if lines[n - 1] in matched then 1 else 0)
  {
  }

  /** A section has a match row for each of its lines that is a match, and no other. */
  lemma {:induction false} BodyRows(text: Bytes, matched: seq<nat>, lines: seq<nat>)
    requires LinesOf(text, lines)
    ensures HasMatchRows(Body(text, matched, lines), CountMatches(lines, matched))
    decreases |lines|
  {
    var n := |lines|;
    if n == 0 {
      OnlyRow([]);
    } else {
      BodyRows(text, matched, lines[..n - 1]);
      BodyStep(text, matched, lines);
      CountStep(lines, matched);
      HitRow(text, matched, lines[n - 1]);
      NextHasMatchRows(Body(text, matched, lines), Body(text, matched, lines[..n - 1]), GapBefore(lines),
        RenderHitLine(text, matched, lines[n - 1]),
        CountMatches(lines[..n - 1], matched), if lines[n - 1] in matched then 1 else 0);
    }
  }

  // ---------------------------------------------------------------- rows of a response

  /** A searched file and its match lines. */
  datatype Searched = Searched(text: Bytes, matched: seq<nat>)

  /** The hit is the section of the file: its header, its body and its count. */
  ghost predicate IsSection(hit: FileHit, file: Searched, before: nat, after: nat) {
    && MatchLines(file.matched, Searchable(file.text)) && hit.matches == |file.matched|
    && (exists h: Heading :: LF !in h.path && hit.header == RenderHeading(h))
    && hit.body == SectionBody(file.text, file.matched, before, after)
  }

  ghost predicate AllSections(hits: seq<FileHit>, files: seq<Searched>, before: nat, after: nat) {
    |hits| == |files| && forall i :: 0 <= i < |hits| ==> IsSection(hits[i], files[i], before, after)
  }

  lemma FirstSections(hits: seq<FileHit>, files: seq<Searched>, before: nat, after: nat, k: nat)
    requires AllSections(hits, files, before, after) && k <= |hits|
    ensures AllSections(hits[..k], files[..k], before, after)
  {
  }

  /** A bracketed row is no match row. */
  lemma BracketRow(row: Bytes)
    requires |row| > 0 && row[0] == OPEN
    ensures !IsMatchRow(row)
  {
    if Find(row, AT_SIGN).Some? {
      var at := Find(row, AT_SIGN).value;
      assert at > 0 ==> row[..at][0] == OPEN;
    }
  }

  lemma HeaderRow(h: Heading)
    requires LF !in h.path
    ensures LF !in RenderHeading(h) && !IsMatchRow(RenderHeading(h))
  {
    RowsAreLfFree(Page(h, [], None));
    assert Rows(Page(h, [], None))[0] == RenderHeading(h);
    assert RenderHeading(h)[0] == Ascii("[hashline snapshot=")[0];
    BracketRow(RenderHeading(h));
  }

  /** A section in the response has a match row for each of its matches. */
  lemma ItemRows(hit: FileHit, file: Searched, before: nat, after: nat)
    requires IsSection(hit, file, before, after)
    ensures Ended(Item(Content, hit)) && MatchRows(Item(Content, hit)) == hit.matches
  {
    var h: Heading :| LF !in h.path && hit.header == RenderHeading(h);
    HeaderRow(h);
    FirstRow(hit.header, hit.body);
    LineStartsExact(file.text);
    ShownInRange(file.text, file.matched, before, after, Searchable(file.text));
    BodyRows(file.text, file.matched, Shown(file.matched, before, after, Searchable(file.text)));
    MatchesAccounted(file.matched, before, after, Searchable(file.text));
  }

  /** One item more, with or without a blank row before it. */
  lemma ListingStep(hits: seq<FileHit>, done: Bytes, item: Bytes)
    requires |hits| > 0 && item == Item(Content, hits[|hits| - 1]) && done == Listing(Content, hits[..|hits| - 1])
    requires Ended(done) && Ended(item)
    ensures Ended(Listing(Content, hits)) && MatchRows(Listing(Content, hits)) == MatchRows(done) + MatchRows(item)
  {
    BlankRow();
    PartsAdd(done, if |hits| > 1 then [LF] else [], item);
  }

  lemma ItemRowsAt(hits: seq<FileHit>, files: seq<Searched>, before: nat, after: nat, i: nat)
    requires AllSections(hits, files, before, after) && i < |hits|
    ensures Ended(Item(Content, hits[i])) && MatchRows(Item(Content, hits[i])) == hits[i].matches
  {
    assert IsSection(hits[i], files[i], before, after);
    ItemRows(hits[i], files[i], before, after);
  }

  lemma TotalStep(hits: seq<FileHit>, rows: nat)
    requires |hits| > 0 && TotalMatches(hits[..|hits| - 1]) == Min(rows, U64_MAX)
    ensures TotalMatches(hits) == Min(rows + hits[|hits| - 1].matches, U64_MAX)
  {
  }

  lemma {:induction false} ListingRows(files: seq<Searched>, hits: seq<FileHit>, before: nat, after: nat)
    requires AllSections(hits, files, before, after)
    ensures Ended(Listing(Content, hits))
    ensures TotalMatches(hits) == Min(MatchRows(Listing(Content, hits)), U64_MAX)
    decreases |hits|
  {
    var n := |hits|;
    if n == 0 {
      BlankRow();
    } else {
      FirstSections(hits, files, before, after, n - 1);
      ListingRows(files[..n - 1], hits[..n - 1], before, after);
      ItemRowsAt(hits, files, before, after, n - 1);
      ListingStep(hits, Listing(Content, hits[..n - 1]), Item(Content, hits[n - 1]));
      TotalStep(hits, MatchRows(Listing(Content, hits[..n - 1])));
    }
  }

  /** What follows the listing, as long as it holds no match row, leaves the count as it is. */
  lemma ResponseRows(files: seq<Searched>, hits: seq<FileHit>, before: nat, after: nat, last: Bytes)
    requires AllSections(hits, files, before, after) && MatchRows(last) == 0
    ensures TotalMatches(hits) == Min(MatchRows(EndedListing(Content, hits) + last), U64_MAX)
  {
    ListingRows(files, hits, before, after);
    BlankRow();
    PartsAdd(Listing(Content, hits), if |hits| > 0 then [LF] else [], last);
  }

  lemma SummaryRow(s: Summary)
    ensures LF !in RenderSummary(s) && |RenderSummary(s)| > 0 && RenderSummary(s)[0] == OPEN
    ensures MatchRows(RenderSummary(s)) == 0
  {
    NotInDigits(Decimal(s.matches), LF);
    NotInDigits(Decimal(s.skippedBinary), LF);
    NotInDigits(Decimal(s.skippedInvalidUtf8), LF);
    assert RenderSummary(s)[0] == Ascii("[hashline matches=")[0];
    BracketRow(RenderSummary(s));
    OnlyRow(RenderSummary(s));
  }

  /** The match count in the summary is the number of match rows of the content response, as far as a word goes. */
  lemma SummaryCountsRows(
    out: Bytes, files: seq<Searched>, hits: seq<FileHit>, skippedBinary: nat, skippedInvalidUtf8: nat, k: nat,
    before: nat, after: nat)
    requires AllSections(hits, files, before, after)
    requires k <= |hits| && Responds(out, Content, hits, skippedBinary, skippedInvalidUtf8, k)
    ensures out == EndedListing(Content, hits[..k]) +
      RenderSummary(Summary(Min(MatchRows(out), U64_MAX), k < |hits|, skippedBinary, skippedInvalidUtf8))
  {
    var summary := Summary(TotalMatches(hits[..k]), k < |hits|, skippedBinary, skippedInvalidUtf8);
    SummaryRow(summary);
    FirstSections(hits, files, before, after, k);
    ResponseRows(files[..k], hits[..k], before, after, RenderSummary(summary));
  }
}
